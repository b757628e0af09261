/**
 * String helpers shared by the modules that model the Go code: the ASCII part of
 * `strings.ToLower`/`strings.ToUpper`, the white-space set of `strings.TrimSpace`,
 * the UTF-8 byte length behind Go's `len(s)`, decimal rendering for `%d`/`%02d`,
 * joining with a separator, and rune reversal.
 *
 * A Go `string` is modelled as the sequence of its runes (`seq<char>`), so every
 * modelled string is valid UTF-8.
 */
module Text {

  /** Re-associating a concatenation; stated once so that loops building strings can cite it cheaply. */
  lemma AppendAssociative(a: string, b: string, c: string)
    ensures (a + b) + c == a + (b + c)
  {
  }

  // ---------------------------------------------------------------- case mapping

  function LowerChar(c: char): char {
    if 'A' <= c <= 'Z' then (c as int + 32) as char else c
  }

  function UpperChar(c: char): char {
    if 'a' <= c <= 'z' then (c as int - 32) as char else c
  }

  /** `strings.ToLower`, restricted to ASCII letters. */
  function Lower(s: string): (r: string)
    ensures |r| == |s|
    ensures forall i :: 0 <= i < |s| ==> r[i] == LowerChar(s[i])
  {
    seq(|s|, i requires 0 <= i < |s| => LowerChar(s[i]))
  }

  /** `strings.ToUpper`, restricted to ASCII letters. */
  function Upper(s: string): (r: string)
    ensures |r| == |s|
    ensures forall i :: 0 <= i < |s| ==> r[i] == UpperChar(s[i])
  {
    seq(|s|, i requires 0 <= i < |s| => UpperChar(s[i]))
  }

  // ---------------------------------------------------------------- white space

  /** Go's `unicode.IsSpace`: the Unicode White_Space property. */
  predicate IsSpace(c: char) {
    var n := c as int;
    (0x09 <= n <= 0x0D) || n == 0x20 || n == 0x85 || n == 0xA0 || n == 0x1680
    || (0x2000 <= n <= 0x200A) || n == 0x2028 || n == 0x2029 || n == 0x202F
    || n == 0x205F || n == 0x3000
  }

  /** The index of the first rune at or after `i` that is not white space, or `|s|`. */
  function SpaceEnd(s: string, i: nat): (j: nat)
    requires i <= |s|
    ensures i <= j <= |s| && (j < |s| ==> !IsSpace(s[j]))
    decreases |s| - i
  {
    if i < |s| && IsSpace(s[i]) then SpaceEnd(s, i + 1) else i
  }

  /** The index just after the last rune before `j` that is not white space, or 0. */
  function SpaceStart(s: string, j: nat): (i: nat)
    requires j <= |s|
    ensures i <= j && (i > 0 ==> !IsSpace(s[i - 1]))
  {
    if j > 0 && IsSpace(s[j - 1]) then SpaceStart(s, j - 1) else j
  }

  /** `strings.TrimSpace`: no leading and no trailing white space remains. */
  function TrimSpace(s: string): (r: string)
    ensures r == [] || (!IsSpace(r[0]) && !IsSpace(r[|r| - 1]))
    ensures |r| <= |s|
  {
    var a, b := SpaceEnd(s, 0), SpaceStart(s, |s|);
    if a < b then s[a..b] else []
  }

  lemma {:induction false} SpaceEndSkipsSpace(s: string, i: nat)
    requires i <= |s|
    ensures forall k :: i <= k < SpaceEnd(s, i) ==> IsSpace(s[k])
    decreases |s| - i
  {
    if i < |s| && IsSpace(s[i]) {
      SpaceEndSkipsSpace(s, i + 1);
    }
  }

  lemma {:induction false} SpaceStartSkipsSpace(s: string, j: nat)
    requires j <= |s|
    ensures forall k :: SpaceStart(s, j) <= k < j ==> IsSpace(s[k])
  {
    if j > 0 && IsSpace(s[j - 1]) {
      SpaceStartSkipsSpace(s, j - 1);
    }
  }

  /** Trimming removes white space at both ends and nothing else: the result is a slice of `s`. */
  lemma TrimSpaceSlice(s: string)
    ensures exists a, b :: (0 <= a <= b <= |s| && TrimSpace(s) == s[a..b]
      && (forall k :: 0 <= k < a ==> IsSpace(s[k])) && (forall k :: b <= k < |s| ==> IsSpace(s[k])))
  {
    var a, b := SpaceEnd(s, 0), SpaceStart(s, |s|);
    SpaceEndSkipsSpace(s, 0);
    SpaceStartSkipsSpace(s, |s|);
    if a < b {
      assert TrimSpace(s) == s[a..b];
    } else {
      assert TrimSpace(s) == s[|s|..|s|];
    }
  }

  /** Text without leading or trailing white space is its own trim; in particular trimming is idempotent. */
  lemma TrimSpaceOfTrimmed(s: string)
    requires s == [] || (!IsSpace(s[0]) && !IsSpace(s[|s| - 1]))
    ensures TrimSpace(s) == s
    ensures TrimSpace(TrimSpace(s)) == TrimSpace(s)
  {
    if s != [] {
      assert s[0..|s|] == s;
    }
  }

  // ---------------------------------------------------------------- UTF-8 length

  /** Number of bytes of the UTF-8 encoding of one rune. */
  function Utf8Width(c: char): nat {
    if c as int < 0x80 then 1
    else if c as int < 0x800 then 2
    else if c as int < 0x10000 then 3
    else 4
  }

  /** Go's `len(s)`: the byte length of the UTF-8 encoding of `s`. */
  function Utf8Length(s: string): (n: nat)
    ensures |s| <= n <= 4 * |s|
  {
    if s == [] then 0 else Utf8Length(s[..|s| - 1]) + Utf8Width(s[|s| - 1])
  }

  predicate IsAscii(s: string) {
    forall i :: 0 <= i < |s| ==> s[i] as int < 0x80
  }

  /** Every rune takes between one and four bytes; exactly one byte each iff all are ASCII. */
  lemma {:induction false} Utf8LengthBounds(s: string)
    ensures |s| <= Utf8Length(s) <= 4 * |s|
    ensures Utf8Length(s) == |s| <==> IsAscii(s)
  {
    if s != [] {
      var p := s[..|s| - 1];
      Utf8LengthBounds(p);
      if IsAscii(s) {
        assert IsAscii(p) by {
          forall i | 0 <= i < |p| ensures p[i] as int < 0x80 { assert p[i] == s[i]; }
        }
      }
    }
  }

  lemma {:induction false} Utf8LengthAppend(a: string, b: string)
    ensures Utf8Length(a + b) == Utf8Length(a) + Utf8Length(b)
    decreases |b|
  {
    if b == [] {
      assert a + b == a;
    } else {
      var b' := b[..|b| - 1];
      assert (a + b)[..|a + b| - 1] == a + b';
      Utf8LengthAppend(a, b');
    }
  }

  // ---------------------------------------------------------------- decimal numbers

  function DigitChar(d: nat): char
    requires d < 10
  {
    ('0' as int + d) as char
  }

  predicate IsDigit(c: char) {
    '0' <= c <= '9'
  }

  /** `%d` of a non-negative integer. */
  function Decimal(n: nat): (r: string)
    ensures |r| >= 1
    ensures forall i :: 0 <= i < |r| ==> IsDigit(r[i])
    decreases n
  {
    if n < 10 then [DigitChar(n)] else Decimal(n / 10) + [DigitChar(n % 10)]
  }

  function DigitValue(c: char): (d: nat)
    requires IsDigit(c)
    ensures d < 10 && DigitChar(d) == c
  {
    c as int - '0' as int
  }

  /** The number a non-empty run of decimal digits denotes, most significant digit first. */
  function DigitsValue(s: string): nat
    requires forall i :: 0 <= i < |s| ==> IsDigit(s[i])
  {
    if s == [] then 0 else DigitsValue(s[..|s| - 1]) * 10 + DigitValue(s[|s| - 1])
  }

  /** Reading back the decimal rendering of `n` gives `n`. */
  lemma {:induction false} DigitsValueOfDecimal(n: nat)
    ensures DigitsValue(Decimal(n)) == n
    decreases n
  {
    if n >= 10 {
      var s := Decimal(n);
      assert s[..|s| - 1] == Decimal(n / 10);
      DigitsValueOfDecimal(n / 10);
    }
  }

  /** `%02d` of a non-negative integer: zero-padded to at least two digits. */
  function Pad2(n: nat): (r: string)
    ensures |r| >= 2
    ensures forall i :: 0 <= i < |r| ==> IsDigit(r[i])
    ensures DigitsValue(r) == n
    ensures n < 100 ==> r == [DigitChar(n / 10), DigitChar(n % 10)]
  {
    if n < 10 then
      assert ("0" + Decimal(n))[..1] == "0";
      DigitsValueOfDecimal(n);
      assert Decimal(n)[..0] == [];
      "0" + Decimal(n)
    else
      assert n < 100 ==> Decimal(n) == Decimal(n / 10) + [DigitChar(n % 10)] && Decimal(n / 10) == [DigitChar(n / 10)];
      DigitsValueOfDecimal(n);
      Decimal(n)
  }

  // ---------------------------------------------------------------- joining

  /** The parts in order with `sep` between neighbours: no leading and no trailing separator. */
  function Join(parts: seq<string>, sep: string): string {
    if |parts| == 0 then ""
    else if |parts| == 1 then parts[0]
    else Join(parts[..|parts| - 1], sep) + sep + parts[|parts| - 1]
  }

  /** Joining two non-empty lists puts exactly one separator between their joins. */
  lemma {:induction false} JoinAppend(a: seq<string>, b: seq<string>, sep: string)
    requires a != [] && b != []
    ensures Join(a + b, sep) == Join(a, sep) + sep + Join(b, sep)
    decreases |b|
  {
    if |b| == 1 {
      assert (a + b)[..|a + b| - 1] == a;
    } else {
      var b' := b[..|b| - 1];
      assert (a + b)[..|a + b| - 1] == a + b';
      JoinAppend(a, b', sep);
    }
  }

  // ---------------------------------------------------------------- reversal

  /** The runes of `s` in reverse order. */
  function Reversed(s: string): string {
    if s == [] then [] else [s[|s| - 1]] + Reversed(s[..|s| - 1])
  }

  /** Reversal keeps the rune count, and rune `k` of the result is rune `|s| - 1 - k` of the input. */
  lemma {:induction false} ReversedAt(s: string)
    ensures |Reversed(s)| == |s|
    ensures forall k :: 0 <= k < |s| ==> Reversed(s)[k] == s[|s| - 1 - k]
  {
    if s != [] {
      ReversedAt(s[..|s| - 1]);
    }
  }

  /** Reversing twice gives back the original string. */
  lemma ReversedInvolutive(s: string)
    ensures Reversed(Reversed(s)) == s
  {
    ReversedAt(s);
    ReversedAt(Reversed(s));
  }

  /** Reversal keeps the byte length too. */
  lemma {:induction false} ReversedUtf8Length(s: string)
    ensures Utf8Length(Reversed(s)) == Utf8Length(s)
  {
    if s != [] {
      var p := s[..|s| - 1];
      ReversedUtf8Length(p);
      Utf8LengthAppend([s[|s| - 1]], Reversed(p));
      assert [s[|s| - 1]][..0] == [];
    }
  }
}
