/** The Python string operations the core relies on: str.isspace, str.strip,
    str.split with an explicit separator, str.join, the `in` substring test,
    str.endswith, ASCII str.lower and str(int). */
module Text {

  /** Python's str.isspace for one character: exactly the characters that
      str.strip() with no argument removes. */
  predicate IsSpace(c: char) {
    c in Whitespace
  }
  const Whitespace: set<char> := {' ', '\t', '\n', '\r', '\U{B}', '\U{C}', '\U{1C}', '\U{1D}', '\U{1E}', '\U{1F}', '\U{85}', '\U{A0}', '\U{1680}', '\U{2000}', '\U{2001}', '\U{2002}', '\U{2003}', '\U{2004}', '\U{2005}', '\U{2006}', '\U{2007}', '\U{2008}', '\U{2009}', '\U{200A}', '\U{2028}', '\U{2029}', '\U{202F}', '\U{205F}', '\U{3000}'}

  predicate AllSpace(s: string) {
    forall k :: 0 <= k < |s| ==> IsSpace(s[k])
  }

  /** str.lstrip(). */
  function StripLeft(s: string): string {
    if s != [] && IsSpace(s[0]) then StripLeft(s[1..]) else s
  }

  /** str.lstrip() drops the whitespace prefix and nothing else. */
  lemma {:induction false} StripLeftSpec(s: string)
    ensures var r := StripLeft(s);
      && |r| <= |s| && r == s[|s| - |r|..]
      && (r != [] ==> !IsSpace(r[0]))
      && forall k :: 0 <= k < |s| - |r| ==> IsSpace(s[k])
  {
    if s != [] && IsSpace(s[0]) {
      StripLeftSpec(s[1..]);
      var r := StripLeft(s);
      forall k | 0 <= k < |s| - |r| ensures IsSpace(s[k]) {
        if k > 0 {
          assert s[k] == s[1..][k - 1];
        }
      }
    }
  }

  /** str.rstrip(). */
  function StripRight(s: string): string {
    if s != [] && IsSpace(s[|s| - 1]) then StripRight(s[..|s| - 1]) else s
  }

  /** str.rstrip() drops the whitespace suffix and nothing else. */
  lemma {:induction false} StripRightSpec(s: string)
    ensures var r := StripRight(s);
      && |r| <= |s| && r == s[..|r|]
      && (r != [] ==> !IsSpace(r[|r| - 1]))
      && forall k :: |r| <= k < |s| ==> IsSpace(s[k])
  {
    if s != [] && IsSpace(s[|s| - 1]) {
      StripRightSpec(s[..|s| - 1]);
      var r := StripRight(s);
      forall k | |r| <= k < |s| ensures IsSpace(s[k]) {
        if k < |s| - 1 {
          assert s[k] == s[..|s| - 1][k];
        }
      }
    }
  }

  /** str.strip(): the result is a slice of s that neither starts nor ends with
      whitespace, and it is empty exactly when s is blank. */
  function Strip(s: string): string {
    StripRight(StripLeft(s))
  }

  /** str.strip() leaves a slice of s that neither starts nor ends with
      whitespace, and leaves nothing exactly when s is blank. */
  lemma StripSpec(s: string)
    ensures |Strip(s)| <= |s|
    ensures Strip(s) != [] ==> Trimmed(Strip(s))
    ensures Strip(s) == [] <==> AllSpace(s)
    ensures Contains(s, Strip(s))
  {
    var t := StripLeft(s);
    StripLeftSpec(s);
    StripRightSpec(t);
    StripInside(s, t, StripRight(t));
    StripBlank(s, t, StripRight(t));
  }

  /** Non-empty, with no whitespace at either end: what strip() leaves of a non-blank text. */
  predicate Trimmed(s: string) {
    s != [] && !IsSpace(s[0]) && !IsSpace(s[|s| - 1])
  }

  /** The stripped text is the slice of s starting after its whitespace prefix. */
  lemma StripInside(s: string, t: string, r: string)
    requires t == StripLeft(s) && r == StripRight(t)
    ensures Contains(s, r)
    ensures r != [] ==> !IsSpace(r[0])
  {
    StripLeftSpec(s);
    StripRightSpec(t);
    var d := |s| - |t|;
    assert t == s[d..];
    assert r == t[..|r|];
    assert s[d..][..|r|] == s[d..d + |r|];
    assert OccursAt(s, r, d);
    if r != [] {
      assert r[0] == t[0];
    }
  }

  /** Stripping leaves nothing exactly when every character is whitespace. */
  lemma StripBlank(s: string, t: string, r: string)
    requires t == StripLeft(s) && r == StripRight(t)
    ensures r == [] <==> AllSpace(s)
  {
    StripLeftSpec(s);
    StripRightSpec(t);
    if r == [] {
      assert t == [];
      assert AllSpace(s) by {
        forall k | 0 <= k < |s| ensures IsSpace(s[k]) {}
      }
    } else {
      assert !IsSpace(s[|s| - |t|]);
    }
  }

  /** The `in` operator on two strings: sub occurs in s. */
  predicate Contains(s: string, sub: string) {
    exists i :: 0 <= i <= |s| - |sub| && OccursAt(s, sub, i)
  }

  /** sub occurs in s starting at index i. */
  predicate OccursAt(s: string, sub: string, i: int) {
    0 <= i <= |s| - |sub| && s[i..i + |sub|] == sub
  }

  lemma ContainsInfix(a: string, b: string, c: string)
    ensures Contains(a + b + c, b)
  {
    assert OccursAt(a + b + c, b, |a|) by {
      assert (a + b + c)[|a|..|a| + |b|] == b;
    }
  }

  lemma ContainsTransitive(s: string, t: string, u: string)
    requires Contains(s, t) && Contains(t, u)
    ensures Contains(s, u)
  {
    var i :| 0 <= i <= |s| - |t| && OccursAt(s, t, i);
    var j :| 0 <= j <= |t| - |u| && OccursAt(t, u, j);
    assert s[i..i + |t|] == t && t[j..j + |u|] == u;
    forall k | 0 <= k < |u| ensures s[i + j + k] == u[k] {
      assert u[k] == t[j..j + |u|][k] == t[j + k];
      assert t[j + k] == s[i..i + |t|][j + k] == s[i + j + k];
    }
    assert OccursAt(s, u, i + j) by {
      assert s[i + j..i + j + |u|] == u;
    }
  }

  predicate StartsWith(s: string, prefix: string) {
    |prefix| <= |s| && s[..|prefix|] == prefix
  }

  lemma StartsWithContains(s: string, prefix: string)
    requires StartsWith(s, prefix)
    ensures Contains(s, prefix)
  {
    assert OccursAt(s, prefix, 0);
  }

  /** str.endswith(suffix). */
  predicate EndsWith(s: string, suffix: string) {
    |suffix| <= |s| && s[|s| - |suffix|..] == suffix
  }

  /** str.join: the pieces with sep between each adjacent pair. */
  function Join(pieces: seq<string>, sep: string): string
  {
    if pieces == [] then ""
    else if |pieces| == 1 then pieces[0]
    else pieces[0] + sep + Join(pieces[1..], sep)
  }

  lemma {:induction false} JoinContainsPiece(pieces: seq<string>, sep: string, i: nat)
    requires i < |pieces|
    ensures Contains(Join(pieces, sep), pieces[i])
  {
    if |pieces| == 1 {
      ContainsInfix("", pieces[0], "");
      assert "" + pieces[0] + "" == pieces[0];
    } else if i == 0 {
      ContainsInfix("", pieces[0], sep + Join(pieces[1..], sep));
      assert "" + pieces[0] + (sep + Join(pieces[1..], sep)) == Join(pieces, sep);
    } else {
      JoinContainsPiece(pieces[1..], sep, i - 1);
      var rest := Join(pieces[1..], sep);
      ContainsInfix(pieces[0] + sep, rest, "");
      assert pieces[0] + sep + rest + "" == Join(pieces, sep);
      ContainsTransitive(Join(pieces, sep), rest, pieces[i]);
    }
  }

  /** The scanning loop behind str.split(sep): `cur` is the piece read so far;
      at each position, a match of sep closes the piece (leftmost, no overlap). */
  function SplitFrom(s: string, sep: string, cur: string): (pieces: seq<string>)
    requires sep != []
    ensures pieces != []
    decreases |s|
  {
    if |s| < |sep| then [cur + s]
    else if s[..|sep|] == sep then [cur] + SplitFrom(s[|sep|..], sep, [])
    else SplitFrom(s[1..], sep, cur + [s[0]])
  }

  /** str.split(sep) for a non-empty separator. */
  function Split(s: string, sep: string): (pieces: seq<string>)
    requires sep != []
    ensures pieces != []
  {
    SplitFrom(s, sep, [])
  }

  lemma {:induction false} SplitFromJoin(s: string, sep: string, cur: string)
    requires sep != []
    ensures Join(SplitFrom(s, sep, cur), sep) == cur + s
    decreases |s|
  {
    if |s| < |sep| {
    } else if s[..|sep|] == sep {
      var rest := SplitFrom(s[|sep|..], sep, []);
      SplitFromJoin(s[|sep|..], sep, []);
      assert [cur] + rest != [] && ([cur] + rest)[1..] == rest;
      assert s == sep + s[|sep|..];
    } else {
      SplitFromJoin(s[1..], sep, cur + [s[0]]);
      assert cur + [s[0]] + s[1..] == cur + s;
    }
  }

  /** Joining the pieces of a split with the same separator gives back the text. */
  lemma SplitJoinRoundTrip(s: string, sep: string)
    requires sep != []
    ensures Join(Split(s, sep), sep) == s
  {
    SplitFromJoin(s, sep, []);
  }

  /** No occurrence of sep in cur + s starts inside cur. */
  predicate NoMatchStartsIn(cur: string, s: string, sep: string) {
    forall j :: 0 <= j < |cur| ==> !OccursAt(cur + s, sep, j)
  }

  lemma {:induction false} SplitFromPiecesFree(s: string, sep: string, cur: string)
    requires sep != []
    requires NoMatchStartsIn(cur, s, sep)
    ensures forall k :: 0 <= k < |SplitFrom(s, sep, cur)| ==> !Contains(SplitFrom(s, sep, cur)[k], sep)
    decreases |s|
  {
    var pieces := SplitFrom(s, sep, cur);
    if |s| < |sep| {
      assert pieces == [cur + s];
      forall j | OccursAt(cur + s, sep, j) ensures j < |cur| {
      }
    } else if s[..|sep|] == sep {
      SplitFromPiecesFree(s[|sep|..], sep, []);
      forall j | OccursAt(cur, sep, j) ensures OccursAt(cur + s, sep, j) {
        assert (cur + s)[j..j + |sep|] == cur[j..j + |sep|];
      }
      assert pieces == [cur] + SplitFrom(s[|sep|..], sep, []);
    } else {
      var cur' := cur + [s[0]];
      assert cur' + s[1..] == cur + s;
      assert !OccursAt(cur + s, sep, |cur|) by {
        assert (cur + s)[|cur|..|cur| + |sep|] == s[..|sep|];
      }
      SplitFromPiecesFree(s[1..], sep, cur');
    }
  }

  /** No piece of a split contains the separator. */
  lemma SplitPiecesFree(s: string, sep: string)
    requires sep != []
    ensures forall k :: 0 <= k < |Split(s, sep)| ==> !Contains(Split(s, sep)[k], sep)
  {
    SplitFromPiecesFree(s, sep, []);
  }

  /** Every character of a joined string comes from a piece or the separator. */
  lemma {:induction false} JoinCharOrigin(pieces: seq<string>, sep: string, c: char)
    requires c in Join(pieces, sep)
    ensures c in sep || exists k :: 0 <= k < |pieces| && c in pieces[k]
  {
    if |pieces| > 1 {
      var rest := Join(pieces[1..], sep);
      assert Join(pieces, sep) == pieces[0] + sep + rest;
      if c !in pieces[0] && c !in sep {
        JoinCharOrigin(pieces[1..], sep, c);
        var k :| 0 <= k < |pieces[1..]| && c in pieces[1..][k];
        assert c in pieces[k + 1];
      }
    }
  }

  /** Every character of a piece occurs in the joined string. */
  lemma {:induction false} JoinKeepsChars(pieces: seq<string>, sep: string, k: nat, c: char)
    requires k < |pieces| && c in pieces[k]
    ensures c in Join(pieces, sep)
  {
    if |pieces| > 1 {
      assert Join(pieces, sep) == pieces[0] + sep + Join(pieces[1..], sep);
      if k > 0 {
        JoinKeepsChars(pieces[1..], sep, k - 1, c);
      }
    }
  }

  /** str.lower() on the ASCII letters. */
  function LowerChar(c: char): char {
    if 'A' <= c <= 'Z' then (c as int - 'A' as int + 'a' as int) as char else c
  }

  /** No ASCII capital letter occurs in s. */
  predicate HasNoUpper(s: string) {
    forall k :: 0 <= k < |s| ==> !('A' <= s[k] <= 'Z')
  }

  /** str.lower() on ASCII letters: same length, no capital left. */
  function Lower(s: string): (r: string)
    ensures |r| == |s| && HasNoUpper(r)
  {
    seq(|s|, i requires 0 <= i < |s| => LowerChar(s[i]))
  }

  /** Lower-casing changes a text exactly when it has a capital letter. */
  lemma LowerFixedPoints(s: string)
    ensures Lower(s) == s <==> HasNoUpper(s)
  {
    if HasNoUpper(s) {
      assert forall i :: 0 <= i < |s| ==> Lower(s)[i] == s[i];
    }
  }

  lemma LowerIdempotent(s: string)
    ensures Lower(Lower(s)) == Lower(s)
  {
    LowerFixedPoints(Lower(s));
  }

  predicate IsDigit(c: char) {
    '0' <= c <= '9'
  }

  predicate AllDigits(s: string) {
    forall k :: 0 <= k < |s| ==> IsDigit(s[k])
  }

  function DigitChar(d: nat): (c: char)
    requires d < 10
    ensures IsDigit(c)
  {
    ('0' as int + d) as char
  }

  function DigitValue(c: char): nat
    requires IsDigit(c)
  {
    c as int - '0' as int
  }

  /** The decimal digits of a natural number, most significant first. */
  function NatToDecimal(n: nat): (r: string)
    ensures r != [] && AllDigits(r)
    decreases n
  {
    if n < 10 then [DigitChar(n)] else NatToDecimal(n / 10) + [DigitChar(n % 10)]
  }

  /** Reads a non-empty string of decimal digits. */
  function DecimalToNat(s: string): nat
    requires s != [] && AllDigits(s)
    decreases |s|
  {
    if |s| == 1 then DigitValue(s[0])
    else DecimalToNat(s[..|s| - 1]) * 10 + DigitValue(s[|s| - 1])
  }

  lemma {:induction false} NatDecimalRoundTrip(n: nat)
    ensures DecimalToNat(NatToDecimal(n)) == n
    decreases n
  {
    if n >= 10 {
      NatDecimalRoundTrip(n / 10);
      var s := NatToDecimal(n);
      assert s[..|s| - 1] == NatToDecimal(n / 10);
    }
  }

  /** Python's str(n) for an int: decimal digits, with '-' for a negative number. */
  function IntToDecimal(n: int): (r: string)
    ensures r != [] && ((r[0] == '-') <==> n < 0) && (n >= 0 ==> IsDigit(r[0]))
    ensures forall k :: 1 <= k < |r| ==> IsDigit(r[k])
  {
    if n < 0 then "-" + NatToDecimal(-n) else NatToDecimal(n)
  }

  /** str(n) reads back as n: the digits after an optional minus sign spell |n|. */
  lemma IntDecimalRoundTrip(n: int)
    ensures var r := IntToDecimal(n);
      (if r[0] == '-' then -(DecimalToNat(r[1..]) as int) else DecimalToNat(r) as int) == n
  {
    if n < 0 {
      NatDecimalRoundTrip(-n);
      assert IntToDecimal(n)[1..] == NatToDecimal(-n);
    } else {
      NatDecimalRoundTrip(n);
    }
  }

  /** str(n) determines n. */
  lemma IntToDecimalInjective(a: int, b: int)
    requires IntToDecimal(a) == IntToDecimal(b)
    ensures a == b
  {
    var s := IntToDecimal(a);
    assert (s[0] == '-') == (a < 0) == (b < 0);
    if a < 0 {
      assert NatToDecimal(-a) == s[1..] == NatToDecimal(-b);
      NatDecimalRoundTrip(-a);
      NatDecimalRoundTrip(-b);
    } else {
      NatDecimalRoundTrip(a);
      NatDecimalRoundTrip(b);
    }
  }

  /** A separator character that occurs in neither head decides where the
      heads end: x + [c] + y == x' + [c] + y' forces x == x' and y == y'. */
  lemma SplitAtFirst(x: string, y: string, x': string, y': string, c: char)
    requires c !in x && c !in x'
    requires x + [c] + y == x' + [c] + y'
    ensures x == x' && y == y'
  {
    var s := x + [c] + y;
    assert forall k :: 0 <= k < |x| ==> s[k] == x[k] != c;
    assert forall k :: 0 <= k < |x'| ==> s[k] == x'[k] != c;
    assert s[|x|] == c && s[|x'|] == c;
    assert |x| == |x'|;
    assert x == s[..|x|] == x';
    assert y == s[|x| + 1..] == y';
  }
}
