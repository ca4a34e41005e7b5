/** 128-bit identifiers (github.com/google/uuid's UUID) and their canonical text
    form: 32 lower-case hexadecimal digits grouped 8-4-4-4-12 by hyphens. */
module Uuids {
  import opened Common

  function Pow16(w: nat): (p: nat)
    ensures p >= 1
  {
    if w == 0 then 1 else 16 * Pow16(w - 1)
  }

  /** A UUID is its 128-bit value. The zero value is uuid.Nil. */
  type Uuid = n: int | 0 <= n < Pow16(32) witness 0

  const Nil: Uuid := 0

  function HexDigit(d: nat): (c: char)
    requires d < 16
  {
    if d < 10 then ('0' as int + d) as char else ('a' as int + d - 10) as char
  }

  predicate IsHexDigit(c: char) {
    '0' <= c <= '9' || 'a' <= c <= 'f'
  }

  function HexDigitValue(c: char): (d: nat)
    requires IsHexDigit(c)
    ensures d < 16
  {
    if '0' <= c <= '9' then c as int - '0' as int else c as int - 'a' as int + 10
  }

  /** `n` written with exactly `w` hexadecimal digits, most significant first. */
  function HexDigits(n: nat, w: nat): (s: string)
    ensures |s| == w
    ensures forall i :: 0 <= i < |s| ==> IsHexDigit(s[i])
  {
    if w == 0 then "" else HexDigits(n / 16, w - 1) + [HexDigit(n % 16)]
  }

  function HexValue(s: string): nat
    requires forall i :: 0 <= i < |s| ==> IsHexDigit(s[i])
  {
    if |s| == 0 then 0 else HexValue(s[..|s| - 1]) * 16 + HexDigitValue(s[|s| - 1])
  }

  /** Fixed-width hexadecimal loses nothing for a value that fits the width. */
  lemma {:induction false} HexValueOfDigits(n: nat, w: nat)
    requires n < Pow16(w)
    ensures HexValue(HexDigits(n, w)) == n
  {
    if w > 0 {
      var s := HexDigits(n, w);
      assert s[..|s| - 1] == HexDigits(n / 16, w - 1);
      HexValueOfDigits(n / 16, w - 1);
      assert HexDigitValue(HexDigit(n % 16)) == n % 16;
    }
  }

  /** uuid.UUID.String: xxxxxxxx-xxxx-xxxx-xxxx-xxxxxxxxxxxx. */
  function UuidString(u: Uuid): (s: string)
    ensures |s| == 36
  {
    var h := HexDigits(u, 32);
    h[..8] + "-" + h[8..12] + "-" + h[12..16] + "-" + h[16..20] + "-" + h[20..]
  }

  /** The 32 digits of a canonical UUID text with its hyphens removed. */
  function Unhyphenate(s: string): string
    requires |s| == 36
  {
    s[..8] + s[9..13] + s[14..18] + s[19..23] + s[24..]
  }

  lemma UnhyphenateGroups(h: string)
    requires |h| == 32
    ensures Unhyphenate(h[..8] + "-" + h[8..12] + "-" + h[12..16] + "-" + h[16..20] + "-" + h[20..]) == h
  {
    var s := h[..8] + "-" + h[8..12] + "-" + h[12..16] + "-" + h[16..20] + "-" + h[20..];
    assert s[..8] == h[..8];
    assert s[9..13] == h[8..12];
    assert s[14..18] == h[12..16];
    assert s[19..23] == h[16..20];
    assert s[24..] == h[20..];
    assert h == h[..8] + h[8..12] + h[12..16] + h[16..20] + h[20..];
  }

  /** Distinct UUIDs have distinct texts: the text determines the value. */
  lemma UuidStringInjective(a: Uuid, b: Uuid)
    ensures UuidString(a) == UuidString(b) ==> a == b
  {
    var ha, hb := HexDigits(a, 32), HexDigits(b, 32);
    UnhyphenateGroups(ha);
    UnhyphenateGroups(hb);
    HexValueOfDigits(a, 32);
    HexValueOfDigits(b, 32);
  }
  // ---------------------------------------------------------------------------
  // uuid.Parse, on its two plain forms

  /** A hexadecimal digit as uuid.Parse reads it: either case. */
  predicate IsAnyHexDigit(c: char) {
    IsHexDigit(c) || 'A' <= c <= 'F'
  }

  predicate AllAnyHex(s: string) {
    forall i :: 0 <= i < |s| ==> IsAnyHexDigit(s[i])
  }

  /** The digits with upper-case letters taken to lower case. */
  function LowerHex(s: string): (t: string)
    requires AllAnyHex(s)
    ensures |t| == |s| && forall i :: 0 <= i < |t| ==> IsHexDigit(t[i])
    ensures (forall i :: 0 <= i < |s| ==> IsHexDigit(s[i])) ==> t == s
  {
    seq(|s|, i requires 0 <= i < |s| => if 'A' <= s[i] <= 'F' then (s[i] as int + 32) as char else s[i])
  }

  /** The positions of the four hyphens of the 36-character form. */
  predicate IsHyphenAt(i: int) {
    i == 8 || i == 13 || i == 18 || i == 23
  }

  /** xxxxxxxx-xxxx-xxxx-xxxx-xxxxxxxxxxxx, digits of either case. */
  predicate IsHyphenated(s: string) {
    |s| == 36 && forall i :: 0 <= i < 36 ==> if IsHyphenAt(i) then s[i] == '-' else IsAnyHexDigit(s[i])
  }

  /** Removing the hyphens of the 36-character form leaves its 32 digits. */
  lemma UnhyphenateDigits(s: string)
    requires IsHyphenated(s)
    ensures |Unhyphenate(s)| == 32 && AllAnyHex(Unhyphenate(s))
  {
    var h := Unhyphenate(s);
    forall i | 0 <= i < 32 ensures IsAnyHexDigit(h[i]) {
      if i < 8 {
        assert h[i] == s[i];
      } else if i < 12 {
        assert h[i] == s[i + 1];
      } else if i < 16 {
        assert h[i] == s[i + 2];
      } else if i < 20 {
        assert h[i] == s[i + 3];
      } else {
        assert h[i] == s[i + 4];
      }
    }
  }

  /** A value written with `|s|` digits is below 16 to that power. */
  lemma {:induction false} HexValueBound(s: string)
    requires forall i :: 0 <= i < |s| ==> IsHexDigit(s[i])
    ensures HexValue(s) < Pow16(|s|)
  {
    if |s| > 0 {
      var front := s[..|s| - 1];
      HexValueBound(front);
      var d := HexDigitValue(s[|s| - 1]);
      assert HexValue(front) * 16 + d <= (Pow16(|front|) - 1) * 16 + 15;
    }
  }

  /** The value of 32 digits of either case. */
  function Value32(h: string): (u: Uuid)
    requires |h| == 32 && AllAnyHex(h)
  {
    var l := LowerHex(h);
    HexValueBound(l);
    HexValue(l)
  }

  /** uuid.Parse on the hyphenated and the bare 32-digit forms; every other
      text is refused. */
  function ParseUuid(s: string): (r: Option<Uuid>)
    ensures r.Some? <==> IsHyphenated(s) || (|s| == 32 && AllAnyHex(s))
  {
    if IsHyphenated(s) then
      UnhyphenateDigits(s);
      Some(Value32(Unhyphenate(s)))
    else if |s| == 32 && AllAnyHex(s) then Some(Value32(s))
    else None
  }

  /** The canonical text of a UUID parses back to it. */
  lemma ParseUuidString(u: Uuid)
    ensures ParseUuid(UuidString(u)) == Some(u)
  {
    var h := HexDigits(u, 32);
    var s := UuidString(u);
    assert IsHyphenated(s) by {
      forall i | 0 <= i < 36 ensures if IsHyphenAt(i) then s[i] == '-' else IsAnyHexDigit(s[i]) {
        if i < 8 {
          assert s[i] == h[i];
        } else if 8 < i < 13 {
          assert s[i] == h[i - 1];
        } else if 13 < i < 18 {
          assert s[i] == h[i - 2];
        } else if 18 < i < 23 {
          assert s[i] == h[i - 3];
        } else if 23 < i {
          assert s[i] == h[i - 4];
        }
      }
    }
    UnhyphenateGroups(h);
    HexValueOfDigits(u, 32);
  }

  /** The bare digits of a UUID's text parse back to it as well. */
  lemma ParseUuidDigits(u: Uuid)
    ensures ParseUuid(HexDigits(u, 32)) == Some(u)
  {
    HexValueOfDigits(u, 32);
  }
}
