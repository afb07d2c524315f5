/** The string operations the front end calls: `trim`, `toLowerCase`, `includes` and `split`,
    plus `join` to state the round trips of `split`.
    Strings are sequences of characters; case mapping covers ASCII letters only. */
module Text {
  import opened Options

  /** The characters `String.prototype.trim` strips: the WhiteSpace and LineTerminator
      code points of ECMAScript, with the space separators of Unicode category Zs. */
  predicate IsWhitespace(c: char) {
    || c == ' ' || c == '\t' || c == '\n' || c == '\r'
    || c == '\U{000B}' || c == '\U{000C}' || c == '\U{00A0}' || c == '\U{FEFF}'
    || c == '\U{1680}' || ('\U{2000}' <= c <= '\U{200A}')
    || c == '\U{2028}' || c == '\U{2029}' || c == '\U{202F}' || c == '\U{205F}' || c == '\U{3000}'
  }

  ghost predicate AllWhitespace(s: string) {
    forall i :: 0 <= i < |s| ==> IsWhitespace(s[i])
  }

  lemma WhitespaceSnoc(t: string, c: char)
    requires AllWhitespace(t) && IsWhitespace(c)
    ensures AllWhitespace(t + [c])
  {
    forall i | 0 <= i < |t| + 1 ensures IsWhitespace((t + [c])[i]) {
      if i < |t| {
        assert (t + [c])[i] == t[i];
      }
    }
  }

  lemma WhitespaceCons(c: char, t: string)
    requires IsWhitespace(c) && AllWhitespace(t)
    ensures AllWhitespace([c] + t)
  {
    forall i | 0 <= i < |t| + 1 ensures IsWhitespace(([c] + t)[i]) {
      if i > 0 {
        assert ([c] + t)[i] == t[i - 1];
      }
    }
  }

  /** Leading whitespace removed. */
  function TrimStart(s: string): (r: string)
    ensures |r| <= |s| && r == s[|s| - |r|..]
    ensures AllWhitespace(s[..|s| - |r|])
    ensures |r| > 0 ==> !IsWhitespace(r[0])
    decreases |s|
  {
    if |s| > 0 && IsWhitespace(s[0]) then
      var r := TrimStart(s[1..]);
      assert s[..|s| - |r|] == [s[0]] + s[1..][..|s| - 1 - |r|];
      WhitespaceCons(s[0], s[1..][..|s| - 1 - |r|]);
      r
    else s
  }

  /** Trailing whitespace removed. */
  function TrimEnd(s: string): (r: string)
    ensures |r| <= |s| && r == s[..|r|]
    ensures AllWhitespace(s[|r|..])
    ensures |r| > 0 ==> !IsWhitespace(r[|r| - 1])
    decreases |s|
  {
    if |s| > 0 && IsWhitespace(s[|s| - 1]) then
      var r := TrimEnd(s[..|s| - 1]);
      assert s[|r|..] == s[..|s| - 1][|r|..] + [s[|s| - 1]];
      WhitespaceSnoc(s[..|s| - 1][|r|..], s[|s| - 1]);
      r
    else s
  }

  /** `r` is `s` with a whitespace prefix and a whitespace suffix cut off, and neither end of
      `r` is whitespace: the one string `s.trim()` can be. */
  ghost predicate TrimmedFrom(r: string, s: string) {
    exists a: nat, b: nat ::
      && a <= b <= |s| && r == s[a..b]
      && AllWhitespace(s[..a]) && AllWhitespace(s[b..])
      && (|r| > 0 ==> !IsWhitespace(r[0]) && !IsWhitespace(r[|r| - 1]))
  }

  /** JavaScript `s.trim()`. */
  function Trim(s: string): (r: string)
    ensures TrimmedFrom(r, s)
  {
    var t := TrimStart(s);
    var r := TrimEnd(t);
    var a := |s| - |t|;
    assert r == s[a..a + |r|];
    assert s[a + |r|..] == t[|r|..];
    r
  }

  /** `!s.trim()`: the string is empty or consists only of whitespace. */
  predicate IsBlank(s: string) {
    |Trim(s)| == 0
  }

  lemma BlankIffAllWhitespace(s: string)
    ensures IsBlank(s) <==> AllWhitespace(s)
  {
    var t := TrimStart(s);
    var r := TrimEnd(t);
    assert |r| == 0 ==> AllWhitespace(t) by {
      if |r| == 0 { assert t[|r|..] == t; }
    }
  }

  /** Trimming twice is trimming once. */
  lemma TrimIdempotent(s: string)
    ensures Trim(Trim(s)) == Trim(s)
  {
    var r := Trim(s);
    if |r| > 0 {
      assert TrimStart(r) == r;
      assert TrimEnd(r) == r;
    }
  }

  predicate IsUpper(c: char) {
    'A' <= c <= 'Z'
  }

  /** ASCII `toLowerCase` of one character. */
  function LowerChar(c: char): (r: char)
    ensures !IsUpper(r)
    ensures !IsUpper(c) ==> r == c
  {
    if IsUpper(c) then (c as int - 'A' as int + 'a' as int) as char else c
  }

  /** ASCII `s.toLowerCase()`. */
  function Lower(s: string): (r: string)
    ensures |r| == |s|
    ensures forall i :: 0 <= i < |s| ==> r[i] == LowerChar(s[i])
  {
    seq(|s|, i requires 0 <= i < |s| => LowerChar(s[i]))
  }

  /** Lower-casing twice is lower-casing once, so a lower-cased string has no upper-case letter left. */
  lemma LowerIdempotent(s: string)
    ensures Lower(Lower(s)) == Lower(s)
  {
  }

  /** `sub` sits in `s` starting at position `i`. */
  ghost predicate OccursAt(s: string, sub: string, i: int) {
    0 <= i && i + |sub| <= |s| && s[i..i + |sub|] == sub
  }

  /** The first position at or after `k` where `sub` occurs in `s`. */
  function IndexFrom(s: string, sub: string, k: nat): (r: Option<nat>)
    ensures r.Some? ==> k <= r.value && OccursAt(s, sub, r.value)
    ensures r.Some? ==> forall j :: k <= j < r.value ==> !OccursAt(s, sub, j)
    ensures r.None? ==> forall j :: k <= j ==> !OccursAt(s, sub, j)
    decreases |s| - k
  {
    if k + |sub| > |s| then None
    else if s[k..k + |sub|] == sub then Some(k)
    else IndexFrom(s, sub, k + 1)
  }

  /** JavaScript `s.indexOf(sub)`, with `None` for -1: the leftmost occurrence of `sub`. */
  function IndexOf(s: string, sub: string): (r: Option<nat>)
    ensures r.Some? ==> OccursAt(s, sub, r.value)
    ensures r.Some? ==> forall j :: 0 <= j < r.value ==> !OccursAt(s, sub, j)
    ensures r.None? <==> forall j :: !OccursAt(s, sub, j)
  {
    IndexFrom(s, sub, 0)
  }

  /** JavaScript `s.includes(sub)`. */
  predicate Contains(s: string, sub: string) {
    IndexOf(s, sub).Some?
  }

  /** `includes` holds exactly when `sub` occurs somewhere in `s`; the empty string occurs everywhere. */
  lemma ContainsIffOccurs(s: string, sub: string)
    ensures Contains(s, sub) <==> exists i :: OccursAt(s, sub, i)
    ensures |sub| == 0 ==> Contains(s, sub)
  {
    if |sub| == 0 {
      assert OccursAt(s, sub, 0);
    }
  }

  /** A one-character string occurs exactly where that character does. */
  lemma ContainsChar(s: string, c: char)
    ensures Contains(s, [c]) <==> c in s
  {
    if c in s {
      var i :| 0 <= i < |s| && s[i] == c;
      assert OccursAt(s, [c], i);
    }
    if Contains(s, [c]) {
      var i := IndexOf(s, [c]).value;
      assert s[i..i + 1][0] == s[i];
    }
  }

  /** `name.toLowerCase().includes(term.toLowerCase())`. */
  predicate ContainsIgnoringCase(name: string, term: string): (b: bool)
    ensures b <==> exists i :: OccursAt(Lower(name), Lower(term), i)
  {
    ContainsIffOccurs(Lower(name), Lower(term));
    Contains(Lower(name), Lower(term))
  }

  /** The match does not depend on the letter case of either side. */
  lemma ContainsIgnoringCaseIsCaseBlind(name: string, term: string)
    ensures ContainsIgnoringCase(Lower(name), term) == ContainsIgnoringCase(name, term)
    ensures ContainsIgnoringCase(name, Lower(term)) == ContainsIgnoringCase(name, term)
  {
    LowerIdempotent(name);
    LowerIdempotent(term);
  }

  /** JavaScript `s.split(sep)` for a non-empty separator: the pieces between the successive
      leftmost occurrences of `sep`. */
  function Split(s: string, sep: string): (pieces: seq<string>)
    requires |sep| > 0
    ensures |pieces| >= 1
    decreases |s|
  {
    match IndexOf(s, sep)
    case None => [s]
    case Some(i) => [s[..i]] + Split(s[i + |sep|..], sep)
  }

  /** JavaScript `pieces.join(sep)`. */
  function Join(pieces: seq<string>, sep: string): string
    decreases |pieces|
  {
    if |pieces| == 0 then ""
    else if |pieces| == 1 then pieces[0]
    else pieces[0] + sep + Join(pieces[1..], sep)
  }

  /** An occurrence inside a prefix is an occurrence in the whole string. */
  lemma OccursInPrefix(s: string, sub: string, n: nat, j: int)
    requires n <= |s|
    requires OccursAt(s[..n], sub, j)
    ensures OccursAt(s, sub, j)
  {
    assert s[..n][j..j + |sub|] == s[j..j + |sub|];
  }

  /** No piece of a split contains the separator. */
  lemma {:induction false} SplitPiecesAvoidSeparator(s: string, sep: string)
    requires |sep| > 0
    ensures forall k :: 0 <= k < |Split(s, sep)| ==> !Contains(Split(s, sep)[k], sep)
    decreases |s|
  {
    match IndexOf(s, sep)
    case None =>
    case Some(i) =>
      SplitPiecesAvoidSeparator(s[i + |sep|..], sep);
      if Contains(s[..i], sep) {
        var j := IndexOf(s[..i], sep).value;
        OccursInPrefix(s, sep, i, j);
        assert false;
      }
  }

  /** Joining the pieces of a split with the separator gives back the original string. */
  lemma {:induction false} JoinSplit(s: string, sep: string)
    requires |sep| > 0
    ensures Join(Split(s, sep), sep) == s
    decreases |s|
  {
    var found := IndexOf(s, sep);
    if found.Some? {
      var i := found.value;
      var rest := s[i + |sep|..];
      JoinSplit(rest, sep);
      JoinCons(s[..i], Split(rest, sep), sep);
      CutAtOccurrence(s, sep, i);
    }
  }

  /** A string is the part before an occurrence, the occurrence, and the part after it. */
  lemma CutAtOccurrence(s: string, sub: string, i: int)
    requires OccursAt(s, sub, i)
    ensures s == s[..i] + sub + s[i + |sub|..]
  {
    assert s == s[..i] + s[i..i + |sub|] + s[i + |sub|..];
  }

  lemma JoinCons(p: string, pieces: seq<string>, sep: string)
    requires |pieces| >= 1
    ensures Join([p] + pieces, sep) == p + sep + Join(pieces, sep)
  {
    assert ([p] + pieces)[1..] == pieces;
  }

  /** A string without the separator splits into itself alone. */
  lemma SplitWithoutSeparator(s: string, sep: string)
    requires |sep| > 0
    requires !Contains(s, sep)
    ensures Split(s, sep) == [s]
  {
  }

  /** For a one-character separator the split is the only way to cut `s` into separator-free
      pieces that join back to `s`: pieces that join to `s` and avoid the separator are its split. */
  lemma {:induction false} SplitJoin(pieces: seq<string>, sep: string)
    requires |sep| == 1
    requires |pieces| >= 1
    requires forall k :: 0 <= k < |pieces| ==> !Contains(pieces[k], sep)
    ensures Split(Join(pieces, sep), sep) == pieces
    decreases |pieces|
  {
    var p := pieces[0];
    if |pieces| == 1 {
      SplitWithoutSeparator(p, sep);
    } else {
      var rest := pieces[1..];
      SplitJoin(rest, sep);
      var tail := Join(rest, sep);
      assert pieces == [p] + rest;
      JoinCons(p, rest, sep);
      var s := p + sep + tail;
      FirstSeparatorAfter(p, tail, sep);
      SplitAtFirst(s, sep, |p|);
      assert s[..|p|] == p;
      assert s[|p| + 1..] == tail;
    }
  }

  /** In `p + sep + tail` with a separator-free `p` and a one-character separator, the first
      separator is the one after `p`. */
  lemma FirstSeparatorAfter(p: string, tail: string, sep: string)
    requires |sep| == 1
    requires !Contains(p, sep)
    ensures IndexOf(p + sep + tail, sep) == Some(|p|)
  {
    var s := p + sep + tail;
    assert OccursAt(s, sep, |p|) by { assert s[|p|..|p| + 1] == sep; }
    var i := IndexOf(s, sep).value;
    if i < |p| {
      assert s[i..i + 1] == p[i..i + 1];
      assert OccursAt(p, sep, i);
      assert false;
    }
  }

  /** The split cuts at the first separator and continues after it. */
  lemma SplitAtFirst(s: string, sep: string, i: nat)
    requires |sep| > 0
    requires IndexOf(s, sep) == Some(i)
    ensures Split(s, sep) == [s[..i]] + Split(s[i + |sep|..], sep)
  {
    assert OccursAt(s, sep, i);
  }
}
