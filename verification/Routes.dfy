/** Route paths: rata fills a pattern's captures to make a path, pat matches a path against a
    pattern and recovers the captures.  URL escaping is taken as the identity. */
module Routes {
  import opened Wrappers

  /** A captured name, with its colon, and the text it captured. */
  type Capture = (string, string)

  const SLASH := '/'
  const NUL := '\0'

  predicate IsAlpha(ch: char) {
    'a' <= ch <= 'z' || 'A' <= ch <= 'Z' || ch == '_'
  }

  predicate IsDigit(ch: char) {
    '0' <= ch <= '9'
  }

  predicate IsAlnum(ch: char) {
    IsAlpha(ch) || IsDigit(ch)
  }

  /** The two tests handed to match: isAlnum and matchPart(b). */
  datatype Test = Alnum | Part(b: char)

  predicate Passes(f: Test, c: char) {
    match f
    case Alnum => IsAlnum(c)
    case Part(b) => c != b && c != SLASH
  }

  // ------------------------------------------------------------- matching

  /** Where the run of characters satisfying f that begins at i stops. */
  function MatchEnd(s: string, f: Test, i: nat): (j: nat)
    requires i <= |s|
    ensures i <= j <= |s| && (forall k :: i <= k < j ==> Passes(f, s[k])) && (j < |s| ==> !Passes(f, s[j]))
    decreases |s| - i
  {
    if i < |s| && Passes(f, s[i]) then MatchEnd(s, f, i + 1) else i
  }

  function NextChar(s: string, j: nat): char {
    if j < |s| then s[j] else NUL
  }

  /** The end of the name of the capture whose colon is at j. */
  function NameEnd(pat: string, j: nat): (e: nat)
    requires j < |pat|
    ensures j < e <= |pat|
  {
    MatchEnd(pat, Alnum, j + 1)
  }

  /** The end of what the capture at j takes of the path from i on. */
  function ValueEnd(pat: string, path: string, i: nat, j: nat): (e: nat)
    requires j < |pat| && i <= |path|
    ensures i <= e <= |path|
  {
    var stop := NextChar(pat, NameEnd(pat, j));
    MatchEnd(path, Part(stop), i)
  }

  predicate OpenEnded(pat: string) {
    pat != "/" && |pat| > 0 && pat[|pat|-1] == SLASH
  }

  /** patHandler.try from indices i and j on, with the captures made so far. */
  function TryFrom(pat: string, path: string, i: nat, j: nat, caps: seq<Capture>): Option<seq<Capture>>
    requires i <= |path| && j <= |pat|
    decreases |pat| - j
  {
    if i == |path| then if j == |pat| then Some(caps) else None
    else if j == |pat| then if OpenEnded(pat) then Some(caps) else None
    else if pat[j] == ':' then
      var e := ValueEnd(pat, path, i, j);
      TryFrom(pat, path, e, NameEnd(pat, j), caps + [(pat[j..NameEnd(pat, j)], path[i..e])])
    else if path[i] == pat[j] then TryFrom(pat, path, i + 1, j + 1, caps)
    else None
  }

  function Try(pat: string, path: string): Option<seq<Capture>> {
    TryFrom(pat, path, 0, 0, [])
  }

  /** Tail from indices i and j on. */
  function TailFrom(pat: string, path: string, i: nat, j: nat): string
    requires i <= |path| && j <= |pat| && pat != ""
    decreases |pat| - j
  {
    if i == |path| then ""
    else if j == |pat| then if pat[|pat|-1] == SLASH then path[i..] else ""
    else if pat[j] == ':' then TailFrom(pat, path, ValueEnd(pat, path, i, j), NameEnd(pat, j))
    else if path[i] == pat[j] then TailFrom(pat, path, i + 1, j + 1)
    else ""
  }

  // ------------------------------------- what a pattern matches, declaratively

  /** The names in the pattern from index j on. */
  function NamesFrom(pat: string, j: nat): seq<string>
    requires j <= |pat|
    decreases |pat| - j
  {
    if j == |pat| then []
    else if pat[j] == ':' then [pat[j..NameEnd(pat, j)]] + NamesFrom(pat, NameEnd(pat, j))
    else NamesFrom(pat, j + 1)
  }

  /** The pattern's text from index j on, with its names replaced by values, in order. */
  function Substitute(pat: string, j: nat, vs: seq<string>): string
    requires j <= |pat| && |vs| == |NamesFrom(pat, j)|
    decreases |pat| - j
  {
    if j == |pat| then ""
    else if pat[j] == ':' then vs[0] + Substitute(pat, NameEnd(pat, j), vs[1..])
    else [pat[j]] + Substitute(pat, j + 1, vs)
  }

  /** Each value ends where the path has a slash, the character that follows the name in the pattern, or its end, and
      not before; and there is some path left for it or after it. */
  predicate Cut(pat: string, j: nat, vs: seq<string>, tail: string)
    requires j <= |pat| && |vs| == |NamesFrom(pat, j)|
    decreases |pat| - j
  {
    if j == |pat| then true
    else if pat[j] == ':' then
      var stop := NextChar(pat, NameEnd(pat, j));
      var after := Substitute(pat, NameEnd(pat, j), vs[1..]) + tail;
      && stop !in vs[0] && SLASH !in vs[0]
      && (after != "" ==> after[0] == stop || after[0] == SLASH)
      && vs[0] + after != ""
      && Cut(pat, NameEnd(pat, j), vs[1..], tail)
    else Cut(pat, j + 1, vs, tail)
  }

  /** The path is the pattern with these values for its names, followed by a tail if the pattern ends in a slash. */
  predicate Matches(pat: string, path: string, vs: seq<string>, tail: string) {
    && |vs| == |NamesFrom(pat, 0)|
    && path == Substitute(pat, 0, vs) + tail
    && (tail != "" ==> pat != "" && pat != "/" && pat[|pat|-1] == '/')
    && Cut(pat, 0, vs, tail)
  }

  function Zip(names: seq<string>, vs: seq<string>): (caps: seq<Capture>)
    requires |names| == |vs|
    ensures |caps| == |names| && forall k :: 0 <= k < |names| ==> caps[k] == (names[k], vs[k])
  {
    seq(|names|, k requires 0 <= k < |names| => (names[k], vs[k]))
  }

  /** The value that the scan takes is the one that is cut where it should be. */
  lemma CutIsScanned(pat: string, path: string, i: nat, j: nat, v: string, after: string)
    requires i <= |path| && j < |pat| && path[i..] == v + after
    requires var stop := NextChar(pat, NameEnd(pat, j));
      stop !in v && SLASH !in v && (after != "" ==> after[0] == stop || after[0] == SLASH)
    ensures |path| == i + |v + after|
    ensures ValueEnd(pat, path, i, j) == i + |v| && path[i..i+|v|] == v && path[i+|v|..] == after
  {
    var e := i + |v|;
    assert |path| - i == |v| + |after|;
    forall k | i <= k < e ensures path[k] == v[k-i] {
      assert path[k] == path[i..][k-i];
    }
    if e < |path| {
      assert path[e] == path[i..][|v|] == after[0];
    }
    MatchEndIs(path, Part(NextChar(pat, NameEnd(pat, j))), i, e);
    assert path[i..][..|v|] == v && path[i..][|v|..] == after;
  }

  /** A path that matches is accepted, with exactly its values, and Tail gives its tail. */
  lemma {:induction false} MatchIsAccepted(pat: string, path: string, i: nat, j: nat, caps: seq<Capture>,
                                           vs: seq<string>, tail: string)
    requires i <= |path| && j <= |pat| && |vs| == |NamesFrom(pat, j)|
    requires path[i..] == Substitute(pat, j, vs) + tail && (tail != "" ==> OpenEnded(pat)) && Cut(pat, j, vs, tail)
    ensures TryFrom(pat, path, i, j, caps) == Some(caps + Zip(NamesFrom(pat, j), vs))
    ensures pat != "" ==> TailFrom(pat, path, i, j) == tail
    decreases |pat| - j
  {
    if j == |pat| {
      assert path[i..] == tail && Zip([], []) == [] && caps + [] == caps;
    } else if pat[j] == ':' {
      NameIsAccepted(pat, path, i, j, caps, vs, tail);
    } else {
      assert path[i..][0] == pat[j] && path[i+1..] == path[i..][1..];
      assert ([pat[j]] + Substitute(pat, j + 1, vs) + tail)[1..] == Substitute(pat, j + 1, vs) + tail;
      MatchIsAccepted(pat, path, i + 1, j + 1, caps, vs, tail);
    }
  }

  lemma TryAtName(pat: string, path: string, i: nat, j: nat, caps: seq<Capture>, e: nat, caps': seq<Capture>)
    requires i < |path| && j < |pat| && pat[j] == ':' && e == ValueEnd(pat, path, i, j)
    requires caps' == caps + [(pat[j..NameEnd(pat, j)], path[i..e])]
    ensures TryFrom(pat, path, i, j, caps) == TryFrom(pat, path, e, NameEnd(pat, j), caps')
    ensures TailFrom(pat, path, i, j) == TailFrom(pat, path, e, NameEnd(pat, j))
  {
  }

  lemma ZipAtName(pat: string, j: nat, vs: seq<string>, caps: seq<Capture>)
    requires j < |pat| && pat[j] == ':' && |vs| == |NamesFrom(pat, j)|
    ensures caps + [(pat[j..NameEnd(pat, j)], vs[0])] + Zip(NamesFrom(pat, NameEnd(pat, j)), vs[1..]) ==
      caps + Zip(NamesFrom(pat, j), vs)
  {
  }

  lemma {:induction false} NameIsAccepted(pat: string, path: string, i: nat, j: nat, caps: seq<Capture>,
                                          vs: seq<string>, tail: string)
    requires i <= |path| && j < |pat| && pat[j] == ':' && |vs| == |NamesFrom(pat, j)|
    requires path[i..] == Substitute(pat, j, vs) + tail && (tail != "" ==> OpenEnded(pat)) && Cut(pat, j, vs, tail)
    ensures TryFrom(pat, path, i, j, caps) == Some(caps + Zip(NamesFrom(pat, j), vs))
    ensures TailFrom(pat, path, i, j) == tail
    decreases |pat| - j, 0
  {
    NameFits(pat, path, i, j, vs, tail);
    CutAtName(pat, j, vs, tail);
    var n, e := NameEnd(pat, j), i + |vs[0]|;
    var caps' := caps + [(pat[j..n], vs[0])];
    MatchIsAccepted(pat, path, e, n, caps', vs[1..], tail);
    TryAtName(pat, path, i, j, caps, e, caps');
    ZipAtName(pat, j, vs, caps);
  }

  lemma NameFits(pat: string, path: string, i: nat, j: nat, vs: seq<string>, tail: string)
    requires i <= |path| && j < |pat| && pat[j] == ':' && |vs| == |NamesFrom(pat, j)|
    requires path[i..] == Substitute(pat, j, vs) + tail && Cut(pat, j, vs, tail)
    ensures i < |path| && ValueEnd(pat, path, i, j) == i + |vs[0]| && path[i..i+|vs[0]|] == vs[0]
    ensures path[i+|vs[0]|..] == Substitute(pat, NameEnd(pat, j), vs[1..]) + tail
  {
    SubstituteAtName(pat, j, vs, tail);
    CutAtName(pat, j, vs, tail);
    CutIsScanned(pat, path, i, j, vs[0], Substitute(pat, NameEnd(pat, j), vs[1..]) + tail);
  }

  lemma SubstituteAtName(pat: string, j: nat, vs: seq<string>, tail: string)
    requires j < |pat| && pat[j] == ':' && |vs| == |NamesFrom(pat, j)|
    ensures Substitute(pat, j, vs) + tail == vs[0] + (Substitute(pat, NameEnd(pat, j), vs[1..]) + tail)
  {
  }

  lemma CutAtName(pat: string, j: nat, vs: seq<string>, tail: string)
    requires j < |pat| && pat[j] == ':' && |vs| == |NamesFrom(pat, j)| && Cut(pat, j, vs, tail)
    ensures var stop := NextChar(pat, NameEnd(pat, j));
      var after := Substitute(pat, NameEnd(pat, j), vs[1..]) + tail;
      && stop !in vs[0] && SLASH !in vs[0] && vs[0] + after != ""
      && (after != "" ==> after[0] == stop || after[0] == SLASH)
    ensures Cut(pat, NameEnd(pat, j), vs[1..], tail)
  {
  }

  /** A path that is accepted matches, with the values captured. */
  lemma {:induction false} AcceptedIsMatch(pat: string, path: string, i: nat, j: nat, caps: seq<Capture>)
    returns (vs: seq<string>, tail: string)
    requires i <= |path| && j <= |pat| && TryFrom(pat, path, i, j, caps).Some?
    ensures |vs| == |NamesFrom(pat, j)| && TryFrom(pat, path, i, j, caps) == Some(caps + Zip(NamesFrom(pat, j), vs))
    ensures path[i..] == Substitute(pat, j, vs) + tail && (tail != "" ==> OpenEnded(pat)) && Cut(pat, j, vs, tail)
    decreases |pat| - j
  {
    if j == |pat| {
      vs, tail := [], path[i..];
      assert Zip([], []) == [] && caps + [] == caps;
    } else if pat[j] == ':' {
      vs, tail := AcceptedName(pat, path, i, j, caps);
    } else {
      vs, tail := AcceptedIsMatch(pat, path, i + 1, j + 1, caps);
      assert path[i..] == [path[i]] + path[i+1..];
    }
  }

  lemma {:induction false} AcceptedName(pat: string, path: string, i: nat, j: nat, caps: seq<Capture>)
    returns (vs: seq<string>, tail: string)
    requires i < |path| && j < |pat| && pat[j] == ':' && TryFrom(pat, path, i, j, caps).Some?
    ensures |vs| == |NamesFrom(pat, j)| && TryFrom(pat, path, i, j, caps) == Some(caps + Zip(NamesFrom(pat, j), vs))
    ensures path[i..] == Substitute(pat, j, vs) + tail && (tail != "" ==> OpenEnded(pat)) && Cut(pat, j, vs, tail)
    decreases |pat| - j, 0
  {
    var n, e := NameEnd(pat, j), ValueEnd(pat, path, i, j);
    var v := path[i..e];
    var caps' := caps + [(pat[j..n], v)];
    TryAtName(pat, path, i, j, caps, e, caps');
    var rest;
    rest, tail := AcceptedIsMatch(pat, path, e, n, caps');
    vs := [v] + rest;
    assert vs[1..] == rest;
    ZipAtName(pat, j, vs, caps);
    ScannedIsCut(pat, path, i, j, rest, tail);
  }

  lemma ScannedIsCut(pat: string, path: string, i: nat, j: nat, rest: seq<string>, tail: string)
    requires i < |path| && j < |pat| && pat[j] == ':' && |rest| + 1 == |NamesFrom(pat, j)|
    requires var n, e := NameEnd(pat, j), ValueEnd(pat, path, i, j);
      path[e..] == Substitute(pat, n, rest) + tail && Cut(pat, n, rest, tail)
    ensures var vs := [path[i..ValueEnd(pat, path, i, j)]] + rest;
      path[i..] == Substitute(pat, j, vs) + tail && Cut(pat, j, vs, tail)
  {
    var n, e := NameEnd(pat, j), ValueEnd(pat, path, i, j);
    var v := path[i..e];
    var vs := [v] + rest;
    assert vs[1..] == rest && path[i..] == v + path[e..];
    assert v + (Substitute(pat, n, rest) + tail) == v + Substitute(pat, n, rest) + tail;
    assert path[e..] != "" ==> path[e..][0] == path[e];
  }

  /** The matcher accepts exactly the paths that match, and captures exactly the values. */
  lemma TryIsMatching(pat: string, path: string)
    ensures Try(pat, path).Some? <==> exists vs, tail :: Matches(pat, path, vs, tail)
    ensures forall vs, tail :: Matches(pat, path, vs, tail) ==>
      Try(pat, path) == Some(Zip(NamesFrom(pat, 0), vs)) && (pat != "" ==> TailFrom(pat, path, 0, 0) == tail)
  {
    assert path[0..] == path;
    if Try(pat, path).Some? {
      var vs, tail := AcceptedIsMatch(pat, path, 0, 0, []);
      assert Matches(pat, path, vs, tail);
    }
    forall vs, tail | Matches(pat, path, vs, tail)
      ensures Try(pat, path) == Some(Zip(NamesFrom(pat, 0), vs)) && (pat != "" ==> TailFrom(pat, path, 0, 0) == tail)
    {
      MatchIsAccepted(pat, path, 0, 0, [], vs, tail);
      assert [] + Zip(NamesFrom(pat, 0), vs) == Zip(NamesFrom(pat, 0), vs);
    }
  }

  type Values = map<string, seq<string>>

  /** url.Values.Add. */
  function Add(v: Values, c: Capture): Values {
    v[c.0 := (if c.0 in v then v[c.0] else []) + [c.1]]
  }

  function ToValues(caps: seq<Capture>): Values {
    if caps == [] then map[] else Add(ToValues(caps[..|caps|-1]), caps[|caps|-1])
  }

  lemma ToValuesSnoc(caps: seq<Capture>, c: Capture)
    ensures ToValues(caps + [c]) == Add(ToValues(caps), c)
  {
    assert (caps + [c])[..|caps|] == caps;
  }

  method Match(s: string, f: Test, i: nat) returns (matched: string, next: char, j: nat)
    requires i <= |s|
    ensures j == MatchEnd(s, f, i) && matched == s[i..j] && next == NextChar(s, j)
  {
    j := i;
    while j < |s| && Passes(f, s[j])
      invariant i <= j <= |s| && MatchEnd(s, f, j) == MatchEnd(s, f, i)
    {
      j := j + 1;
    }
    next := if j < |s| then s[j] else NUL;
    matched := s[i..j];
  }

  /** The pattern index rises in every turn, so the scan ends. */
  method TryPath(pat: string, path: string) returns (params: Values, ok: bool)
    ensures ok <==> Try(pat, path).Some?
    ensures ok ==> params == ToValues(Try(pat, path).value)
    ensures ok <==> exists vs, tail :: Matches(pat, path, vs, tail)
    ensures forall vs, tail :: Matches(pat, path, vs, tail) ==> params == ToValues(Zip(NamesFrom(pat, 0), vs))
  {
    TryIsMatching(pat, path);
    params := map[];
    ghost var caps: seq<Capture> := [];
    var i: nat, j: nat := 0, 0;
    while i < |path|
      invariant i <= |path| && j <= |pat|
      invariant params == ToValues(caps) && TryFrom(pat, path, i, j, caps) == Try(pat, path)
      decreases |pat| - j
    {
      if j >= |pat| {
        return params, pat != "/" && |pat| > 0 && pat[|pat|-1] == SLASH;
      } else if pat[j] == ':' {
        var name, nextc, nameEnd := Match(pat, Alnum, j + 1);
        var val, _, valueEnd := Match(path, Part(nextc), i);
        assert [':'] + name == pat[j..nameEnd];
        params := Add(params, ([':'] + name, val));
        ToValuesSnoc(caps, ([':'] + name, val));
        caps := caps + [([':'] + name, val)];
        i, j := valueEnd, nameEnd;
      } else if path[i] == pat[j] {
        i, j := i + 1, j + 1;
      } else {
        return params, false;
      }
    }
    ok := j == |pat|;
  }

  /** An empty pattern is outside its domain unless the path is empty: the source would index
      before the start of the pattern. */
  method Tail(pat: string, path: string) returns (tail: string)
    requires pat != "" || path == ""
    ensures pat != "" ==> tail == TailFrom(pat, path, 0, 0)
    ensures path == "" ==> tail == ""
    ensures forall vs, rest :: pat != "" && Matches(pat, path, vs, rest) ==> tail == rest
  {
    TryIsMatching(pat, path);
    var i: nat, j: nat := 0, 0;
    while i < |path|
      invariant i <= |path| && j <= |pat|
      invariant pat != "" ==> TailFrom(pat, path, i, j) == TailFrom(pat, path, 0, 0)
      decreases |pat| - j
    {
      if j >= |pat| {
        if pat[|pat|-1] == SLASH {
          return path[i..];
        }
        return "";
      } else if pat[j] == ':' {
        var _, nextc, nameEnd := Match(pat, Alnum, j + 1);
        var _, _, valueEnd := Match(path, Part(nextc), i);
        i, j := valueEnd, nameEnd;
      } else if path[i] == pat[j] {
        i, j := i + 1, j + 1;
      } else {
        return "";
      }
    }
    return "";
  }

  // ----------------------------------------------------------------- tail

  lemma {:induction false} MatchEndPrefix(s: string, f: Test, i: nat, n: nat)
    requires i <= n <= |s| && MatchEnd(s, f, i) <= n
    ensures MatchEnd(s[..n], f, i) == MatchEnd(s, f, i)
    decreases |s| - i
  {
    if i < n && Passes(f, s[i]) {
      MatchEndPrefix(s, f, i + 1, n);
    }
  }

  ghost predicate SplitsAt(pat: string, path: string, i: nat, j: nat, caps: seq<Capture>, tail: string)
    requires i <= |path| && j <= |pat|
  {
    && |tail| <= |path| - i
    && path[|path|-|tail|..] == tail
    && (tail != "" && j < |pat| ==> |tail| < |path| - i)
    && TryFrom(pat, path[..|path|-|tail|], i, j, caps) == TryFrom(pat, path, i, j, caps)
  }

  /** An accepted path is what the pattern matched followed by the tail, and the matched part is
      accepted by itself with the same captures. */
  lemma {:induction false} TailFromSplits(pat: string, path: string, i: nat, j: nat, caps: seq<Capture>)
    requires OpenEnded(pat) && i <= |path| && j <= |pat| && TryFrom(pat, path, i, j, caps).Some?
    ensures SplitsAt(pat, path, i, j, caps, TailFrom(pat, path, i, j))
    decreases |pat| - j
  {
    var tail := TailFrom(pat, path, i, j);
    if i == |path| {
      assert path[..|path|] == path;
    } else if j == |pat| {
    } else if pat[j] == ':' {
      var n, e := NameEnd(pat, j), ValueEnd(pat, path, i, j);
      var caps' := caps + [(pat[j..n], path[i..e])];
      TailFromSplits(pat, path, e, n, caps');
      assert n < |pat| by { assert n == |pat| ==> !IsAlnum(pat[|pat|-1]); }
      var stop, cut := NextChar(pat, n), |path| - |tail|;
      MatchEndPrefix(path, Part(stop), i, cut);
      assert path[..cut][i..e] == path[i..e];
      if tail == "" {
        assert path[..cut] == path;
      }
    } else {
      TailFromSplits(pat, path, i + 1, j + 1, caps);
      if tail == "" {
        assert path[..|path|-|tail|] == path;
      }
    }
  }

  /** For every pattern ending in a slash other than "/": if the pattern accepts the path, then
      the path is prefix + Tail(pat, path), and the pattern accepts the prefix with the same
      captures. */
  lemma TailSplits(pat: string, path: string)
    requires OpenEnded(pat) && Try(pat, path).Some?
    ensures var tail := TailFrom(pat, path, 0, 0);
      && |tail| <= |path|
      && path == path[..|path|-|tail|] + tail
      && Try(pat, path[..|path|-|tail|]) == Try(pat, path)
  {
    TailFromSplits(pat, path, 0, 0, []);
    var n := |path| - |TailFrom(pat, path, 0, 0)|;
    assert path == path[..n] + path[n..];
  }

  // --------------------------------------------------------- making paths

  /** strings.Split on slashes. */
  function Split(s: string): (cs: seq<string>)
    ensures cs != [] && forall c :: c in cs ==> SLASH !in c
  {
    if s == "" then [""]
    else
      var rest := Split(s[1..]);
      if s[0] == SLASH then [""] + rest else [[s[0]] + rest[0]] + rest[1..]
  }

  /** strings.Join with slashes. */
  function Join(cs: seq<string>): string
    requires cs != []
  {
    if |cs| == 1 then cs[0] else cs[0] + [SLASH] + Join(cs[1..])
  }

  lemma {:induction false} JoinSplit(s: string)
    ensures Join(Split(s)) == s
  {
    if s != "" {
      var rest := Split(s[1..]);
      JoinSplit(s[1..]);
      if s[0] == SLASH {
        assert ([""] + rest)[1..] == rest;
      } else {
        JoinHead(s[0], rest);
      }
    }
  }

  lemma JoinHead(ch: char, rest: seq<string>)
    requires rest != []
    ensures Join([[ch] + rest[0]] + rest[1..]) == [ch] + Join(rest)
  {
    var cs := [[ch] + rest[0]] + rest[1..];
    if |rest| > 1 {
      assert cs[1..] == rest[1..];
      assert Join(cs) == [ch] + rest[0] + [SLASH] + Join(rest[1..]);
    }
  }

  type Params = map<string, string>

  predicate IsCapture(c: string) {
    |c| > 0 && c[0] == ':'
  }

  /** What a component becomes; None when its parameter is missing. */
  function Fill(c: string, params: Params): Option<string> {
    if !IsCapture(c) then Some(c) else if c[1..] in params then Some(params[c[1..]]) else None
  }

  /** A component that is no name stays as it is, and a name becomes its parameter. */
  predicate FilledIn(c: string, params: Params, v: string) {
    if |c| > 0 && c[0] == ':' then c[1..] in params && v == params[c[1..]] else v == c
  }

  ghost predicate AllFilledIn(cs: seq<string>, params: Params, vs: seq<string>) {
    |vs| == |cs| > 0 && forall k :: 0 <= k < |vs| ==> FilledIn(cs[k], params, vs[k])
  }

  datatype PathResult = Path(path: string) | MissingParam(component: string)

  predicate Supplied(cs: seq<string>, params: Params) {
    forall c :: c in cs ==> Fill(c, params).Some?
  }

  function FillAll(cs: seq<string>, params: Params): (vs: seq<string>)
    requires Supplied(cs, params)
    ensures |vs| == |cs| && forall k :: 0 <= k < |cs| ==> Fill(cs[k], params) == Some(vs[k])
  {
    if cs == [] then [] else [Fill(cs[0], params).value] + FillAll(cs[1..], params)
  }

  predicate FirstMissing(cs: seq<string>, params: Params, k: int) {
    0 <= k < |cs| && Fill(cs[k], params).None? && Supplied(cs[..k], params)
  }

  /** Fails on the first component whose parameter is missing, and otherwise joins the filled
      components. */
  method CreatePath(pattern: string, params: Params) returns (r: PathResult)
    ensures r.Path? <==> Supplied(Split(pattern), params)
    ensures r.Path? ==> r.path == Join(FillAll(Split(pattern), params))
    ensures r.Path? <==> forall c :: c in Split(pattern) && IsCapture(c) ==> c[1..] in params
    ensures r.Path? ==> exists vs :: AllFilledIn(Split(pattern), params, vs) && r.path == Join(vs)
    ensures r.MissingParam? ==> exists k :: FirstMissing(Split(pattern), params, k) && r.component == Split(pattern)[k]
  {
    var components := Split(pattern);
    ghost var cs := components;
    for i := 0 to |components|
      invariant |components| == |cs| && forall k :: i <= k < |cs| ==> components[k] == cs[k]
      invariant forall k :: 0 <= k < i ==> Fill(cs[k], params) == Some(components[k])
    {
      var c := components[i];
      if |c| == 0 {
        continue;
      }
      if c[0] == ':' {
        if c[1..] !in params {
          assert c in cs && FirstMissing(cs, params, i);
          return MissingParam(c);
        }
        components := components[i := params[c[1..]]];
      }
    }
    assert forall c :: c in cs ==> Fill(c, params).Some?;
    assert components == FillAll(cs, params);
    return Path(Join(components));
  }

  // ----------------------------------------------------------- round trip

  /** A colon-free literal, or a colon and a non-empty name. */
  predicate WellFormed(c: string) {
    if IsCapture(c) then |c| > 1 && forall k :: 1 <= k < |c| ==> IsAlnum(c[k])
    else ':' !in c && SLASH !in c
  }

  predicate AllWellFormed(cs: seq<string>) {
    forall c :: c in cs ==> WellFormed(c)
  }

  /** The captures that should come back. */
  function Expected(cs: seq<string>, vs: seq<string>): seq<Capture>
    requires |cs| == |vs|
  {
    if cs == [] then []
    else (if IsCapture(cs[0]) then [(cs[0], vs[0])] else []) + Expected(cs[1..], vs[1..])
  }

  /** No value contains a slash, and one at the very end is neither empty nor contains NUL. */
  predicate Recoverable(cs: seq<string>, vs: seq<string>)
    requires |cs| == |vs|
  {
    cs != [] ==>
      && (IsCapture(cs[0]) ==> SLASH !in vs[0] && (|cs| == 1 ==> vs[0] != "" && NUL !in vs[0]))
      && Recoverable(cs[1..], vs[1..])
  }

  ghost predicate Fills(cs: seq<string>, vs: seq<string>) {
    |cs| == |vs| && AllWellFormed(cs) && forall k :: 0 <= k < |cs| && !IsCapture(cs[k]) ==> vs[k] == cs[k]
  }

  lemma {:induction false} Literal(pat: string, path: string, i: nat, j: nat, n: nat, caps: seq<Capture>)
    requires i + n <= |path| && j + n <= |pat| && pat[j..j+n] == path[i..i+n] && ':' !in pat[j..j+n]
    ensures TryFrom(pat, path, i, j, caps) == TryFrom(pat, path, i + n, j + n, caps)
    decreases n
  {
    if n > 0 {
      var lit := pat[j..j+n];
      assert pat[j] == lit[0] && path[i] == path[i..i+n][0] && lit[0] in lit;
      assert pat[j+1..j+n] == lit[1..] && path[i+1..i+n] == path[i..i+n][1..];
      Literal(pat, path, i + 1, j + 1, n - 1, caps);
    }
  }

  lemma {:induction false} MatchEndIs(s: string, f: Test, i: nat, j: nat)
    requires i <= j <= |s| && (forall k :: i <= k < j ==> Passes(f, s[k])) && (j < |s| ==> !Passes(f, s[j]))
    ensures MatchEnd(s, f, i) == j
    decreases j - i
  {
    if i < j {
      MatchEndIs(s, f, i + 1, j);
    }
  }

  /** What TryFrom returns extends what it was given. */
  lemma {:induction false} CapturesGrow(pat: string, path: string, i: nat, j: nat, caps: seq<Capture>)
    requires i <= |path| && j <= |pat|
    ensures TryFrom(pat, path, i, j, caps).Some? ==> caps <= TryFrom(pat, path, i, j, caps).value
    decreases |pat| - j
  {
    if i < |path| && j < |pat| {
      if pat[j] == ':' {
        var e := ValueEnd(pat, path, i, j);
        CapturesGrow(pat, path, e, NameEnd(pat, j), caps + [(pat[j..NameEnd(pat, j)], path[i..e])]);
      } else if path[i] == pat[j] {
        CapturesGrow(pat, path, i + 1, j + 1, caps);
      }
    }
  }

  lemma NameOf(pat: string, j: nat, c: string)
    requires j + |c| <= |pat| && pat[j..j+|c|] == c && IsCapture(c) && WellFormed(c)
    requires j + |c| < |pat| ==> pat[j+|c|] == SLASH
    ensures NameEnd(pat, j) == j + |c|
  {
    forall k | j + 1 <= k < j + |c| ensures IsAlnum(pat[k]) {
      assert pat[k] == c[k-j];
    }
    MatchEndIs(pat, Alnum, j + 1, j + |c|);
  }

  /** The last component is a capture. */
  lemma LastCapture(pat: string, path: string, i: nat, j: nat, c: string, v: string, caps: seq<Capture>)
    requires i <= |path| && j <= |pat| && pat[j..] == c && path[i..] == v && IsCapture(c) && WellFormed(c)
    ensures TryFrom(pat, path, i, j, caps) == Some(caps + [(c, v)]) <==> v != "" && SLASH !in v && NUL !in v
  {
    assert pat[j] == c[0] && pat[j..j+|c|] == c;
    if v != "" {
      NameOf(pat, j, c);
      var e := ValueEnd(pat, path, i, j);
      assert pat[|pat|-1] == c[|c|-1] && IsAlnum(c[|c|-1]);
      if SLASH !in v && NUL !in v {
        forall k | i <= k < |path| ensures Passes(Part(NUL), path[k]) {
          assert path[k] == v[k-i] && v[k-i] in v;
        }
        MatchEndIs(path, Part(NUL), i, |path|);
        assert e == |path| && path[i..e] == v && pat[j..|pat|] == c;
      } else {
        var k :| 0 <= k < |v| && (v[k] == SLASH || v[k] == NUL);
        assert path[i+k] == v[k];
      }
    }
  }

  /** A capture followed by a slash takes up to the first slash of the path. */
  lemma InnerCapture(pat: string, path: string, i: nat, j: nat, c: string, v: string, caps: seq<Capture>)
    returns (e: nat)
    requires i + |v| < |path| && path[i..i+|v|] == v && path[i+|v|] == SLASH
    requires j + |c| < |pat| && pat[j..j+|c|] == c && pat[j+|c|] == SLASH && IsCapture(c) && WellFormed(c)
    ensures i <= e <= i + |v| && (e == i + |v| <==> SLASH !in v)
    ensures TryFrom(pat, path, i, j, caps) == TryFrom(pat, path, e, j + |c|, caps + [(c, path[i..e])])
  {
    assert pat[j] == c[0];
    NameOf(pat, j, c);
    e := ValueEnd(pat, path, i, j);
    if SLASH in v {
      var k :| 0 <= k < |v| && v[k] == SLASH;
      assert path[i+k] == v[k];
    } else {
      forall k | i <= k < i + |v| ensures Passes(Part(SLASH), path[k]) {
        assert path[k] == v[k-i] && v[k-i] in v;
      }
      MatchEndIs(path, Part(SLASH), i, i + |v|);
    }
  }

  lemma JoinParts(s: string, i: nat, cs: seq<string>)
    requires i <= |s| && |cs| > 1 && s[i..] == Join(cs)
    ensures i + |cs[0]| < |s| && s[i..i+|cs[0]|] == cs[0] && s[i+|cs[0]|] == SLASH
    ensures s[i+|cs[0]|+1..] == Join(cs[1..])
  {
    var n := |cs[0]|;
    assert s[i..] == cs[0] + ([SLASH] + Join(cs[1..]));
    assert s[i..i+n] == s[i..][..n] && s[i+n] == s[i..][n] && s[i+n+1..] == s[i..][n+1..];
  }

  /** Matching the rest of a filled path against the rest of its pattern. */
  lemma {:induction false} RoundTripFrom(pat: string, path: string, i: nat, j: nat, cs: seq<string>, vs: seq<string>,
                                         caps: seq<Capture>)
    requires i <= |path| && j <= |pat| && cs != [] && Fills(cs, vs)
    requires pat[j..] == Join(cs) && path[i..] == Join(vs)
    ensures TryFrom(pat, path, i, j, caps) == Some(caps + Expected(cs, vs)) <==> Recoverable(cs, vs)
    decreases |cs|
  {
    FillsRest(cs, vs);
    if |cs| == 1 {
      RoundTripOne(pat, path, i, j, cs[0], vs[0], caps);
      assert cs == [cs[0]] && vs == [vs[0]];
    } else if IsCapture(cs[0]) && SLASH in vs[0] {
      JoinParts(pat, j, cs);
      JoinParts(path, i, vs);
      CaptureShort(pat, path, i, j, cs[0], vs[0], caps, Expected(cs[1..], vs[1..]));
    } else {
      var i', j', caps' := RoundTripStep(pat, path, i, j, cs, vs, caps);
      RoundTripFrom(pat, path, i', j', cs[1..], vs[1..], caps');
      ExpectedStep(cs, vs, caps);
    }
  }

  /** Past one component and its slash. */
  lemma RoundTripStep(pat: string, path: string, i: nat, j: nat, cs: seq<string>, vs: seq<string>, caps: seq<Capture>)
    returns (i': nat, j': nat, caps': seq<Capture>)
    requires i <= |path| && j <= |pat| && |cs| == |vs| > 1 && pat[j..] == Join(cs) && path[i..] == Join(vs)
    requires WellFormed(cs[0]) && (if IsCapture(cs[0]) then SLASH !in vs[0] else vs[0] == cs[0])
    ensures i' <= |path| && j' <= |pat| && pat[j'..] == Join(cs[1..]) && path[i'..] == Join(vs[1..])
    ensures TryFrom(pat, path, i, j, caps) == TryFrom(pat, path, i', j', caps')
    ensures caps' == if IsCapture(cs[0]) then caps + [(cs[0], vs[0])] else caps
  {
    var c, v := cs[0], vs[0];
    JoinParts(pat, j, cs);
    JoinParts(path, i, vs);
    i', j' := i + |v| + 1, j + |c| + 1;
    if IsCapture(c) {
      CaptureFits(pat, path, i, j, c, v, caps);
      caps' := caps + [(c, v)];
    } else {
      InnerLiteral(pat, path, i, j, c, caps);
      caps' := caps;
    }
  }

  lemma ExpectedStep(cs: seq<string>, vs: seq<string>, caps: seq<Capture>)
    requires |cs| == |vs| > 1 && (IsCapture(cs[0]) ==> SLASH !in vs[0])
    ensures Recoverable(cs, vs) <==> Recoverable(cs[1..], vs[1..])
    ensures caps + Expected(cs, vs) ==
      (if IsCapture(cs[0]) then caps + [(cs[0], vs[0])] else caps) + Expected(cs[1..], vs[1..])
  {
    var rest := Expected(cs[1..], vs[1..]);
    if IsCapture(cs[0]) {
      assert caps + ([(cs[0], vs[0])] + rest) == caps + [(cs[0], vs[0])] + rest;
    } else {
      assert [] + rest == rest;
    }
  }

  lemma RoundTripOne(pat: string, path: string, i: nat, j: nat, c: string, v: string, caps: seq<Capture>)
    requires i <= |path| && j <= |pat| && pat[j..] == c && path[i..] == v && WellFormed(c) && (!IsCapture(c) ==> v == c)
    ensures TryFrom(pat, path, i, j, caps) == Some(caps + Expected([c], [v])) <==> Recoverable([c], [v])
  {
    assert [c][1..] == [] && [v][1..] == [];
    assert Expected([c][1..], [v][1..]) == [] && Recoverable([c][1..], [v][1..]);
    if IsCapture(c) {
      LastCapture(pat, path, i, j, c, v, caps);
      assert Expected([c], [v]) == [(c, v)];
    } else {
      LastLiteral(pat, path, i, j, c, caps);
      assert Expected([c], [v]) == [] && Recoverable([c], [v]);
      assert caps + [] == caps;
    }
  }

  lemma CaptureFits(pat: string, path: string, i: nat, j: nat, c: string, v: string, caps: seq<Capture>)
    requires i + |v| < |path| && path[i..i+|v|] == v && path[i+|v|] == SLASH && SLASH !in v
    requires j + |c| < |pat| && pat[j..j+|c|] == c && pat[j+|c|] == SLASH && IsCapture(c) && WellFormed(c)
    ensures TryFrom(pat, path, i, j, caps) == TryFrom(pat, path, i + |v| + 1, j + |c| + 1, caps + [(c, v)])
  {
    var e := InnerCapture(pat, path, i, j, c, v, caps);
    Literal(pat, path, e, j + |c|, 1, caps + [(c, v)]);
  }

  lemma CaptureShort(pat: string, path: string, i: nat, j: nat, c: string, v: string, caps: seq<Capture>,
                     rest: seq<Capture>)
    requires i + |v| < |path| && path[i..i+|v|] == v && path[i+|v|] == SLASH && SLASH in v
    requires j + |c| < |pat| && pat[j..j+|c|] == c && pat[j+|c|] == SLASH && IsCapture(c) && WellFormed(c)
    ensures TryFrom(pat, path, i, j, caps) != Some(caps + ([(c, v)] + rest))
  {
    var e := InnerCapture(pat, path, i, j, c, v, caps);
    CutShort(pat, path, e, j + |c|, caps, c, v, path[i..e], rest);
  }

  lemma FillsRest(cs: seq<string>, vs: seq<string>)
    requires Fills(cs, vs) && cs != []
    ensures Fills(cs[1..], vs[1..]) && WellFormed(cs[0]) && (!IsCapture(cs[0]) ==> vs[0] == cs[0])
  {
    assert cs[0] in cs && forall c :: c in cs[1..] ==> c in cs;
  }

  /** A capture that took too little shows in the result. */
  lemma CutShort(pat: string, path: string, i: nat, j: nat, caps: seq<Capture>, c: string, v: string, short: string,
                 rest: seq<Capture>)
    requires i <= |path| && j <= |pat| && |short| < |v|
    ensures TryFrom(pat, path, i, j, caps + [(c, short)]) != Some(caps + ([(c, v)] + rest))
  {
    CapturesGrow(pat, path, i, j, caps + [(c, short)]);
    assert (caps + [(c, short)])[|caps|] == (c, short) && (caps + ([(c, v)] + rest))[|caps|] == (c, v);
  }

  lemma LastLiteral(pat: string, path: string, i: nat, j: nat, c: string, caps: seq<Capture>)
    requires i <= |path| && j <= |pat| && pat[j..] == c == path[i..] && ':' !in c
    ensures TryFrom(pat, path, i, j, caps) == Some(caps)
  {
    assert pat[j..j+|c|] == c && path[i..i+|c|] == c;
    Literal(pat, path, i, j, |c|, caps);
  }

  lemma InnerLiteral(pat: string, path: string, i: nat, j: nat, c: string, caps: seq<Capture>)
    requires i + |c| < |path| && path[i..i+|c|] == c && path[i+|c|] == SLASH
    requires j + |c| < |pat| && pat[j..j+|c|] == c && pat[j+|c|] == SLASH && ':' !in c
    ensures TryFrom(pat, path, i, j, caps) == TryFrom(pat, path, i + |c| + 1, j + |c| + 1, caps)
  {
    var n := |c| + 1;
    assert pat[j..j+n] == c + [SLASH] && path[i..i+n] == c + [SLASH];
    Literal(pat, path, i, j, n, caps);
  }

  /** For every route whose components are colon-free literals or captures, matching the created
      path against the route's own pattern gives back exactly the parameters, if and only if no
      value contains a slash and a value at the very end is not empty and has no NUL. */
  lemma RoundTrip(pattern: string, params: Params)
    requires AllWellFormed(Split(pattern)) && Supplied(Split(pattern), params)
    ensures var cs := Split(pattern);
      var vs := FillAll(cs, params);
      Try(pattern, Join(vs)) == Some(Expected(cs, vs)) <==> Recoverable(cs, vs)
  {
    var cs := Split(pattern);
    var vs := FillAll(cs, params);
    JoinSplit(pattern);
    forall k | 0 <= k < |cs| && !IsCapture(cs[k]) ensures vs[k] == cs[k] {
      assert Fill(cs[k], params) == Some(vs[k]);
    }
    assert pattern[0..] == pattern && Join(vs)[0..] == Join(vs);
    RoundTripFrom(pattern, Join(vs), 0, 0, cs, vs, []);
    assert [] + Expected(cs, vs) == Expected(cs, vs);
  }

  // ------------------------------------------------------ on the values returned

  function Names(caps: seq<Capture>): (r: seq<string>)
    ensures |r| == |caps| && forall k :: 0 <= k < |r| ==> r[k] == caps[k].0
  {
    seq(|caps|, k requires 0 <= k < |caps| => caps[k].0)
  }

  /** A path that is accepted has a capture for every name of the pattern, in order. */
  lemma {:induction false} CapturesHaveNames(pat: string, path: string, i: nat, j: nat, caps: seq<Capture>)
    requires i <= |path| && j <= |pat| && TryFrom(pat, path, i, j, caps).Some?
    ensures Names(TryFrom(pat, path, i, j, caps).value) == Names(caps) + NamesFrom(pat, j)
    decreases |pat| - j
  {
    if i < |path| && j < |pat| {
      if pat[j] == ':' {
        var e := ValueEnd(pat, path, i, j);
        var name := pat[j..NameEnd(pat, j)];
        CapturesHaveNames(pat, path, e, NameEnd(pat, j), caps + [(name, path[i..e])]);
        assert Names(caps + [(name, path[i..e])]) == Names(caps) + [name];
      } else {
        CapturesHaveNames(pat, path, i + 1, j + 1, caps);
      }
    }
  }

  /** What the map of values holds, whatever the order of the captures. */
  lemma {:induction false} ToValuesHolds(caps: seq<Capture>)
    ensures forall name :: name in ToValues(caps) <==> name in Names(caps)
    ensures forall name, x :: name in ToValues(caps) ==> (x in ToValues(caps)[name] <==> (name, x) in caps)
  {
    if caps != [] {
      var init, last := caps[..|caps|-1], caps[|caps|-1];
      ToValuesHolds(init);
      assert caps == init + [last];
      assert Names(caps) == Names(init) + [last.0];
    }
  }

  /** Captures of the same names in the same order are determined by the map of their values. */
  lemma {:induction false} ValuesDetermine(a: seq<Capture>, b: seq<Capture>)
    requires Names(a) == Names(b) && ToValues(a) == ToValues(b)
    ensures a == b
  {
    if a != [] {
      var n := |Names(a)| - 1;
      var a', b' := a[..n], b[..n];
      var name := Names(a)[n];
      assert a == a' + [a[n]] && b == b' + [b[n]];
      assert Names(a') == Names(a)[..n] == Names(b)[..n] == Names(b');
      ToValuesHolds(a');
      ToValuesHolds(b');
      LastValues(ToValues(a'), ToValues(b'), a[n], b[n]);
      ValuesDetermine(a', b');
    }
  }

  lemma LastValues(v: Values, w: Values, c: Capture, d: Capture)
    requires c.0 == d.0 && v.Keys == w.Keys && Add(v, c) == Add(w, d)
    ensures v == w && c == d
  {
    var x, y := Add(v, c)[c.0], Add(w, d)[c.0];
    assert x == y && x[..|x|-1] == y[..|y|-1] && x[|x|-1] == y[|y|-1];
    forall k | k in v ensures v[k] == w[k] {
      if k == c.0 {
        assert v[k] == x[..|x|-1] && w[k] == y[..|y|-1];
      } else {
        assert v[k] == Add(v, c)[k] && w[k] == Add(w, d)[k];
      }
    }
  }

  /** Values that always come back. */
  function Plain(cs: seq<string>): (vs: seq<string>)
    ensures |vs| == |cs| && forall k :: 0 <= k < |cs| ==> vs[k] == if IsCapture(cs[k]) then "a" else cs[k]
  {
    seq(|cs|, k requires 0 <= k < |cs| => if IsCapture(cs[k]) then "a" else cs[k])
  }

  lemma {:induction false} PlainIsRecoverable(cs: seq<string>)
    ensures Recoverable(cs, Plain(cs))
  {
    if cs != [] {
      PlainIsRecoverable(cs[1..]);
      assert Plain(cs)[1..] == Plain(cs[1..]);
    }
  }

  lemma {:induction false} ExpectedNames(cs: seq<string>, vs: seq<string>, ws: seq<string>)
    requires |cs| == |vs| == |ws|
    ensures Names(Expected(cs, vs)) == Names(Expected(cs, ws))
  {
    if cs != [] {
      ExpectedNames(cs[1..], vs[1..], ws[1..]);
      if IsCapture(cs[0]) {
        assert Names([(cs[0], vs[0])] + Expected(cs[1..], vs[1..])) == [cs[0]] + Names(Expected(cs[1..], vs[1..]));
        assert Names([(cs[0], ws[0])] + Expected(cs[1..], ws[1..])) == [cs[0]] + Names(Expected(cs[1..], ws[1..]));
      }
    }
  }

  /** The names expected are those of the pattern. */
  lemma ExpectedHasNames(pattern: string, cs: seq<string>, vs: seq<string>)
    requires AllWellFormed(cs) && |cs| == |vs| && cs != [] && Join(cs) == pattern
    ensures Names(Expected(cs, vs)) == NamesFrom(pattern, 0)
  {
    var ws := Plain(cs);
    var path := Join(ws);
    PlainIsRecoverable(cs);
    assert pattern[0..] == pattern && path[0..] == path;
    RoundTripFrom(pattern, path, 0, 0, cs, ws, []);
    assert [] + Expected(cs, ws) == Expected(cs, ws);
    CapturesHaveNames(pattern, path, 0, 0, []);
    ExpectedNames(cs, vs, ws);
  }

  /** The round trip on what the matcher hands to its handler: its map of values is the expected one if and
      only if the values are recoverable. */
  lemma RoundTripValues(pattern: string, params: Params)
    requires AllWellFormed(Split(pattern)) && Supplied(Split(pattern), params)
    ensures var cs := Split(pattern);
      var vs := FillAll(cs, params);
      var r := Try(pattern, Join(vs));
      r.Some? && ToValues(r.value) == ToValues(Expected(cs, vs)) <==> Recoverable(cs, vs)
  {
    var cs := Split(pattern);
    var vs := FillAll(cs, params);
    var r := Try(pattern, Join(vs));
    RoundTrip(pattern, params);
    if r.Some? && ToValues(r.value) == ToValues(Expected(cs, vs)) {
      JoinSplit(pattern);
      ExpectedHasNames(pattern, cs, vs);
      CapturesHaveNames(pattern, Join(vs), 0, 0, []);
      ValuesDetermine(r.value, Expected(cs, vs));
    }
  }

  /** The expected values are the parameters of the named components, and nothing else. */
  lemma {:induction false} ExpectedAreParams(cs: seq<string>, vs: seq<string>, params: Params)
    requires |cs| == |vs| && forall k :: 0 <= k < |cs| ==> Fill(cs[k], params) == Some(vs[k])
    ensures forall c, v :: (c, v) in Expected(cs, vs) <==> IsParam(cs, params, c, v)
  {
    if cs != [] {
      ExpectedAreParams(cs[1..], vs[1..], params);
      assert cs == [cs[0]] + cs[1..];
    }
  }

  /** Printing and matching: CreatePath, then the matcher on its path.  The parameters come back, each under
      its name, if and only if they are recoverable. */
  method CreateAndMatch(pattern: string, params: Params) returns (values: Values, ok: bool)
    requires AllWellFormed(Split(pattern)) && Supplied(Split(pattern), params)
    ensures var cs := Split(pattern);
      var vs := FillAll(cs, params);
      && (ok && values == ToValues(Expected(cs, vs)) <==> Recoverable(cs, vs))
      && (Recoverable(cs, vs) ==> ok && forall c, v :: IsValue(values, c, v) <==> IsParam(cs, params, c, v))
  {
    var r := CreatePath(pattern, params);
    values, ok := TryPath(pattern, r.path);
    RoundTripValues(pattern, params);
    ExpectedValues(Split(pattern), FillAll(Split(pattern), params), params);
  }

  predicate IsValue(values: Values, name: string, value: string) {
    name in values && value in values[name]
  }

  /** A named component of the route, with its parameter. */
  predicate IsParam(cs: seq<string>, params: Params, name: string, value: string) {
    name in cs && IsCapture(name) && name[1..] in params && value == params[name[1..]]
  }

  lemma ValueIsCaptured(caps: seq<Capture>, name: string, value: string)
    ensures IsValue(ToValues(caps), name, value) <==> (name, value) in caps
  {
    ToValuesHolds(caps);
    if (name, value) in caps {
      var k :| 0 <= k < |caps| && caps[k] == (name, value);
      assert Names(caps)[k] == name;
    }
  }

  lemma ExpectedValues(cs: seq<string>, vs: seq<string>, params: Params)
    requires |cs| == |vs| && forall k :: 0 <= k < |cs| ==> Fill(cs[k], params) == Some(vs[k])
    ensures forall c, v :: IsValue(ToValues(Expected(cs, vs)), c, v) <==> IsParam(cs, params, c, v)
  {
    forall c, v ensures IsValue(ToValues(Expected(cs, vs)), c, v) <==> IsParam(cs, params, c, v) {
      ValueIsCaptured(Expected(cs, vs), c, v);
      ExpectedAreParams(cs, vs, params);
    }
  }
}
