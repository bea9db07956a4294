/** Character and string helpers with the meaning JavaScript gives them:
    ASCII digit and word classes of regular expressions, the whitespace set
    of `String.prototype.trim`, ASCII `toLowerCase`, `includes` and the first
    piece of `split`. */
module Text {

  predicate IsDigit(c: char) {
    '0' <= c <= '9'
  }

  /** The regular-expression class `\w`: ASCII letters, digits and `_`. */
  predicate IsWordChar(c: char) {
    IsDigit(c) || 'a' <= c <= 'z' || 'A' <= c <= 'Z' || c == '_'
  }

  predicate AllDigits(s: string) {
    forall i :: 0 <= i < |s| ==> IsDigit(s[i])
  }

  /** WhiteSpace and LineTerminator as `trim` strips them. */
  predicate IsTrimSpace(c: char) {
    c == ' ' || c == '\t' || c == '\n' || c == '\r' || c == '\U{B}' || c == '\U{C}'
    || c == '\U{A0}' || c == '\U{1680}' || ('\U{2000}' <= c <= '\U{200A}')
    || c == '\U{2028}' || c == '\U{2029}' || c == '\U{202F}' || c == '\U{205F}'
    || c == '\U{3000}' || c == '\U{FEFF}'
  }

  function DigitValue(c: char): (d: nat)
    requires IsDigit(c)
    ensures d < 10
  {
    (c as int - '0' as int) as nat
  }

  /** `parseInt` of a string made only of decimal digits. */
  function DecimalValue(s: string): (v: nat)
    requires AllDigits(s)
    ensures v < Pow10(|s|)
  {
    if |s| == 0 then 0 else DecimalValue(s[..|s| - 1]) * 10 + DigitValue(s[|s| - 1])
  }

  function Pow10(k: nat): (p: nat)
    ensures p >= 1
  {
    if k == 0 then 1 else 10 * Pow10(k - 1)
  }

  /** Drops leading trim-whitespace. */
  function TrimStart(s: string): (r: string)
    ensures |r| <= |s| && r == s[|s| - |r|..]
    ensures forall i :: 0 <= i < |s| - |r| ==> IsTrimSpace(s[i])
    ensures |r| > 0 ==> !IsTrimSpace(r[0])
  {
    if |s| > 0 && IsTrimSpace(s[0]) then TrimStart(s[1..]) else s
  }

  /** Drops trailing trim-whitespace. */
  function TrimEnd(s: string): (r: string)
    ensures |r| <= |s| && r == s[..|r|]
    ensures forall i :: |r| <= i < |s| ==> IsTrimSpace(s[i])
    ensures |r| > 0 ==> !IsTrimSpace(r[|r| - 1])
  {
    if |s| > 0 && IsTrimSpace(s[|s| - 1]) then TrimEnd(s[..|s| - 1]) else s
  }

  /** `String.prototype.trim`: the result is the middle of `s` once every
      leading and trailing whitespace character is gone. */
  function Trim(s: string): (r: string)
    ensures exists lead: nat, trail: nat {:trigger s[lead..trail]} ::
      lead <= trail <= |s| && r == s[lead..trail]
      && (forall i :: 0 <= i < lead ==> IsTrimSpace(s[i]))
      && (forall i :: trail <= i < |s| ==> IsTrimSpace(s[i]))
    ensures |r| > 0 ==> !IsTrimSpace(r[0]) && !IsTrimSpace(r[|r| - 1])
  {
    var a := TrimStart(s);
    var lead := |s| - |a|;
    TrimEndWithin(s, lead);
    TrimEnd(a)
  }

  /** Trimming the end of a suffix of `s` leaves a slice of `s` followed
      only by whitespace. */
  lemma TrimEndWithin(s: string, lead: nat)
    requires lead <= |s|
    ensures var r := TrimEnd(s[lead..]);
      && lead + |r| <= |s| && r == s[lead..lead + |r|]
      && forall i :: lead + |r| <= i < |s| ==> IsTrimSpace(s[i])
  {
    var a := s[lead..];
    var r := TrimEnd(a);
    forall i | lead + |r| <= i < |s| ensures IsTrimSpace(s[i]) {
      assert s[i] == a[i - lead];
    }
  }

  /** ASCII `toLowerCase` of one character. */
  function LowerChar(c: char): (l: char)
    ensures 'A' <= c <= 'Z' ==> l as int == c as int + 32
    ensures !('A' <= c <= 'Z') ==> l == c
  {
    if 'A' <= c <= 'Z' then (c as int + 32) as char else c
  }

  /** ASCII `toLowerCase`: same length, no upper-case letter left, every
      other character untouched. */
  function Lower(s: string): (r: string)
    ensures |r| == |s|
    ensures forall i :: 0 <= i < |s| ==> r[i] == LowerChar(s[i])
    ensures forall i :: 0 <= i < |r| ==> !('A' <= r[i] <= 'Z')
  {
    seq(|s|, i requires 0 <= i < |s| => LowerChar(s[i]))
  }

  /** Lower-casing twice is lower-casing once. */
  lemma LowerIdempotent(s: string)
    ensures Lower(Lower(s)) == Lower(s)
  {
  }

  /** `t` occurs in `s` at offset `i`. */
  predicate OccursAt(s: string, t: string, i: nat) {
    i + |t| <= |s| && s[i..i + |t|] == t
  }

  /** An occurrence one place further into `s` is an occurrence in its tail. */
  lemma OccursShift(s: string, t: string)
    requires |s| > 0
    ensures forall i: nat :: OccursAt(s, t, i + 1) <==> OccursAt(s[1..], t, i)
  {
    forall i: nat ensures OccursAt(s, t, i + 1) <==> OccursAt(s[1..], t, i) {
      if i + 1 + |t| <= |s| {
        var tail := s[1..];
        assert |tail| == |s| - 1;
        assert forall k :: i + 1 <= k < i + 1 + |t| ==> s[k] == tail[k - 1];
        assert s[i + 1..i + 1 + |t|] == tail[i..i + |t|];
      }
    }
  }

  /** `String.prototype.includes`. */
  function Contains(s: string, t: string): (b: bool)
    ensures b <==> exists i: nat :: OccursAt(s, t, i)
    decreases |s|
  {
    if |t| > |s| then
      assert forall i: nat :: !OccursAt(s, t, i);
      false
    else if s[..|t|] == t then
      assert OccursAt(s, t, 0);
      true
    else
      var rest := Contains(s[1..], t);
      OccursShift(s, t);
      assert forall i: nat :: OccursAt(s, t, i) ==> i == 0 || OccursAt(s[1..], t, i - 1);
      rest
  }

  /** The first piece of `s.split(sep)` for a non-empty separator: the text
      before the first occurrence of `sep`, or all of `s` when it has none. */
  function BeforeFirst(s: string, sep: string): (r: string)
    requires |sep| > 0
    ensures |r| <= |s| && r == s[..|r|]
    ensures forall i: nat :: i < |r| ==> !OccursAt(s, sep, i)
    ensures |r| < |s| ==> OccursAt(s, sep, |r|)
    ensures !Contains(s, sep) ==> r == s
    decreases |s|
  {
    if |s| == 0 then s
    else if OccursAt(s, sep, 0) then []
    else
      var rest := BeforeFirst(s[1..], sep);
      OccursShift(s, sep);
      var r := [s[0]] + rest;
      assert forall i: nat :: i < |r| ==> i == 0 || OccursAt(s, sep, i) == OccursAt(s[1..], sep, i - 1);
      r
  }
}
