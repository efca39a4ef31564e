/** The string operations the search handler relies on: `String.prototype.trim`,
    `String.prototype.split` on one separator character, and a case-insensitive
    literal substring test (what `new RegExp(term, 'i')` does for a term
    without metacharacters). */
module Text {
  import opened Seqs

  /** The characters `trim` removes: ECMAScript WhiteSpace and LineTerminator. */
  predicate IsSpace(c: char) {
    || c == '\t' || c == '\n' || c == '\U{000B}' || c == '\U{000C}' || c == '\r'
    || c == ' ' || c == '\U{00A0}' || c == '\U{1680}'
    || ('\U{2000}' <= c <= '\U{200A}')
    || c == '\U{2028}' || c == '\U{2029}' || c == '\U{202F}' || c == '\U{205F}'
    || c == '\U{3000}' || c == '\U{FEFF}'
  }

  function TrimStart(s: string): (r: string)
    ensures |r| <= |s| && r == s[|s| - |r|..]
    ensures forall k :: 0 <= k < |s| - |r| ==> IsSpace(s[k])
    ensures |r| > 0 ==> !IsSpace(r[0])
  {
    if |s| > 0 && IsSpace(s[0]) then TrimStart(s[1..]) else s
  }

  function TrimEnd(s: string): (r: string)
    ensures |r| <= |s| && r == s[..|r|]
    ensures forall k :: |r| <= k < |s| ==> IsSpace(s[k])
    ensures |r| > 0 ==> !IsSpace(r[|r| - 1])
  {
    if |s| > 0 && IsSpace(s[|s| - 1]) then TrimEnd(s[..|s| - 1]) else s
  }

  /** `s` without leading and trailing whitespace: a contiguous piece of `s`
      whose surroundings are all whitespace and whose ends are not. */
  function Trim(s: string): (r: string)
    ensures exists i :: PaddedAt(s, r, i)
    ensures |r| > 0 ==> !IsSpace(r[0]) && !IsSpace(r[|r| - 1])
  {
    TrimPadded(s);
    TrimEnd(TrimStart(s))
  }

  lemma TrimPadded(s: string)
    ensures PaddedAt(s, TrimEnd(TrimStart(s)), |s| - |TrimStart(s)|)
  {
    var t := TrimStart(s);
    var r := TrimEnd(t);
    assert |t| <= |s| && t == s[|s| - |t|..];
    assert forall k :: 0 <= k < |s| - |t| ==> IsSpace(s[k]);
    assert |r| <= |t| && r == t[..|r|];
    assert forall k :: |r| <= k < |t| ==> IsSpace(t[k]);
    PaddedFromParts(s, t, r);
  }

  /** Stripping whitespace from the front, then from the back, leaves a piece
      padded only by whitespace. */
  lemma PaddedFromParts(s: string, t: string, r: string)
    requires |t| <= |s| && t == s[|s| - |t|..]
    requires forall k :: 0 <= k < |s| - |t| ==> IsSpace(s[k])
    requires |r| <= |t| && r == t[..|r|]
    requires forall k :: |r| <= k < |t| ==> IsSpace(t[k])
    ensures PaddedAt(s, r, |s| - |t|)
  {
    var i := |s| - |t|;
    assert r == s[i..i + |r|];
    SpaceBeyond(s, t, i, |r|);
  }

  /** Whitespace past position `n` of the suffix `t` of `s` starting at `i` is
      whitespace past position `i + n` of `s`. */
  lemma SpaceBeyond(s: string, t: string, i: nat, n: nat)
    requires i <= |s| && t == s[i..] && n <= |t|
    requires forall k :: n <= k < |t| ==> IsSpace(t[k])
    ensures forall k :: i + n <= k < |s| ==> IsSpace(s[k])
  {
    forall k | i + n <= k < |s| ensures IsSpace(s[k]) {
      assert s[k] == t[k - i];
    }
  }

  /** `s` is `r` placed at position `i` with only whitespace around it. */
  ghost predicate PaddedAt(s: string, r: string, i: int) {
    && 0 <= i <= |s| - |r| && r == s[i..i + |r|]
    && (forall k :: 0 <= k < i ==> IsSpace(s[k]))
    && (forall k :: i + |r| <= k < |s| ==> IsSpace(s[k]))
  }

  /** Trimming twice is trimming once. */
  lemma TrimIdempotent(s: string)
    ensures Trim(Trim(s)) == Trim(s)
  {
    var r := Trim(s);
    if |r| > 0 {
      assert TrimStart(r) == r;
      assert TrimEnd(r) == r;
    }
  }

  /** The inverse of `Split`: the parts glued back with the separator. */
  function Join(parts: seq<string>, sep: char): string {
    if |parts| == 0 then ""
    else if |parts| == 1 then parts[0]
    else parts[0] + [sep] + Join(parts[1..], sep)
  }

  /** `s.split(sep)`: the maximal separator-free pieces, at least one
      (the empty string splits into one empty piece). */
  function Split(s: string, sep: char): (parts: seq<string>)
    ensures |parts| >= 1
    ensures forall k :: 0 <= k < |parts| ==> sep !in parts[k]
    ensures Join(parts, sep) == s
    decreases |s|
  {
    var i := IndexOf(s, sep);
    if i == -1 then [s]
    else
      var rest := Split(s[i + 1..], sep);
      SplitStep(s, sep, i, rest);
      [s[..i]] + rest
  }

  /** One step of `Split`: the piece before the first separator, then the
      pieces of the remainder. */
  lemma SplitStep(s: string, sep: char, i: int, rest: seq<string>)
    requires 0 <= i < |s| && s[i] == sep && sep !in s[..i]
    requires |rest| >= 1 && (forall k :: 0 <= k < |rest| ==> sep !in rest[k])
    requires Join(rest, sep) == s[i + 1..]
    ensures forall k :: 0 <= k < |[s[..i]] + rest| ==> sep !in ([s[..i]] + rest)[k]
    ensures Join([s[..i]] + rest, sep) == s
  {
    var parts := [s[..i]] + rest;
    assert parts[1..] == rest;
    assert s == s[..i] + [sep] + s[i + 1..];
  }

  /** Splitting the joined parts recovers them, when no part holds the separator. */
  lemma {:induction false} SplitJoin(parts: seq<string>, sep: char)
    requires |parts| >= 1
    requires forall k :: 0 <= k < |parts| ==> sep !in parts[k]
    ensures Split(Join(parts, sep), sep) == parts
  {
    if |parts| > 1 {
      var p0 := parts[0];
      var rest := Join(parts[1..], sep);
      var s := p0 + [sep] + rest;
      assert s == Join(parts, sep);
      SplitJoin(parts[1..], sep);
      assert s[..|p0|] == p0;
      assert s[|p0|] == sep;
      assert IndexOf(s, sep) == |p0|;
      assert s[|p0| + 1..] == rest;
      assert Split(s, sep) == [p0] + Split(rest, sep);
      assert [p0] + parts[1..] == parts;
    } else {
      assert Join(parts, sep) == parts[0];
    }
  }

  function LowerChar(c: char): char {
    if 'A' <= c <= 'Z' then (c as int + 32) as char else c
  }

  /** ASCII lower-casing, the folding the model uses for the `i` flag. */
  function Lower(s: string): (r: string)
    ensures |r| == |s|
    ensures forall k :: 0 <= k < |s| ==> r[k] == LowerChar(s[k])
  {
    seq(|s|, k requires 0 <= k < |s| => LowerChar(s[k]))
  }

  /** `n` occurs as a contiguous piece of `h`. */
  ghost predicate IsInfix(n: string, h: string) {
    exists i :: OccursAt(n, h, i)
  }

  ghost predicate OccursAt(n: string, h: string, i: int) {
    0 <= i <= |h| - |n| && h[i..i + |n|] == n
  }

  /** Scans `h` for an occurrence of `n` starting at each position in turn. */
  function Contains(h: string, n: string): (b: bool)
    ensures b <==> IsInfix(n, h)
    decreases |h|
  {
    if |n| > |h| then false
    else if h[..|n|] == n then assert OccursAt(n, h, 0); true
    else
      InfixShift(n, h);
      Contains(h[1..], n)
  }

  /** When `n` is not a prefix of `h`, it occurs in `h` exactly when it occurs
      in `h` without its first character. */
  lemma InfixShift(n: string, h: string)
    requires |n| <= |h| && h[..|n|] != n
    ensures IsInfix(n, h) <==> IsInfix(n, h[1..])
  {
    if IsInfix(n, h[1..]) {
      var i :| OccursAt(n, h[1..], i);
      assert h[i + 1..i + 1 + |n|] == n;
      assert OccursAt(n, h, i + 1);
    }
    if IsInfix(n, h) {
      var i :| OccursAt(n, h, i);
      assert i > 0;
      assert h[1..][i - 1..i - 1 + |n|] == n;
      assert OccursAt(n, h[1..], i - 1);
    }
  }

  /** The case-insensitive literal match of `pattern` anywhere in `subject`. */
  function ContainsIgnoreCase(subject: string, pattern: string): (b: bool)
    ensures b <==> IsInfix(Lower(pattern), Lower(subject))
  {
    Contains(Lower(subject), Lower(pattern))
  }

  /** The empty pattern matches every subject. */
  lemma EmptyPatternMatches(subject: string)
    ensures ContainsIgnoreCase(subject, "")
  {
    assert OccursAt(Lower(""), Lower(subject), 0);
  }

  /** Matching ignores the letter case of both sides. */
  lemma {:induction false} MatchIgnoresCase(subject: string, pattern: string)
    ensures ContainsIgnoreCase(Lower(subject), pattern) == ContainsIgnoreCase(subject, pattern)
    ensures ContainsIgnoreCase(subject, Lower(pattern)) == ContainsIgnoreCase(subject, pattern)
  {
    LowerIdempotent(subject);
    LowerIdempotent(pattern);
  }

  lemma LowerIdempotent(s: string)
    ensures Lower(Lower(s)) == Lower(s)
  {
  }
}
