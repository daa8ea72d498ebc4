/** The few java.lang.String and java.lang.Integer operations the loader relies on:
    String.startsWith, String.split with a one-character separator, String.trim,
    Integer.parseInt and String.valueOf(int); and java.util.Collections.reverse,
    which the route rebuild uses. */
module JavaText {

  /** Integer.MIN_VALUE and Integer.MAX_VALUE. */
  const IntMin: int := -0x8000_0000
  const IntMax: int := 0x7FFF_FFFF

  datatype Option<+T> = None | Some(value: T)

  predicate StartsWith(s: string, prefix: string) {
    |prefix| <= |s| && s[..|prefix|] == prefix
  }

  // ---------------------------------------------------------------- split

  /** Every piece of `s` between occurrences of `sep`, empty pieces included:
      one more piece than there are separators. */
  function Pieces(s: string, sep: char): (r: seq<string>)
    ensures |r| >= 1
  {
    if |s| == 0 then [""]
    else
      var rest := Pieces(s[1..], sep);
      if s[0] == sep then [""] + rest else [[s[0]] + rest[0]] + rest[1..]
  }

  /** Glues pieces back together with `sep` in between: the inverse of Pieces. */
  function Join(parts: seq<string>, sep: char): string
    requires |parts| >= 1
  {
    if |parts| == 1 then parts[0] else parts[0] + [sep] + Join(parts[1..], sep)
  }

  predicate SepFree(parts: seq<string>, sep: char) {
    forall k :: 0 <= k < |parts| ==> sep !in parts[k]
  }

  /** Removes the empty pieces at the end of `ps`, and only those. */
  function DropTrailingEmpty(ps: seq<string>): (r: seq<string>)
    ensures |r| <= |ps| && r == ps[..|r|]
    ensures forall k :: |r| <= k < |ps| ==> ps[k] == ""
    ensures r == [] || r[|r| - 1] != ""
  {
    if ps == [] then []
    else if ps[|ps| - 1] == "" then DropTrailingEmpty(ps[..|ps| - 1])
    else ps
  }

  /** String.split(sep) for a separator that is one ordinary character: a string
      without the separator gives itself as the only piece (even when empty);
      otherwise all pieces, with the empty ones at the end removed. */
  function Split(s: string, sep: char): (r: seq<string>)
  {
    if sep !in s then [s] else DropTrailingEmpty(Pieces(s, sep))
  }

  lemma {:induction false} JoinCons(c: char, parts: seq<string>, sep: char)
    requires |parts| >= 1
    ensures Join([[c] + parts[0]] + parts[1..], sep) == [c] + Join(parts, sep)
  {
    var q := [[c] + parts[0]] + parts[1..];
    if |parts| > 1 {
      assert q[1..] == parts[1..];
    }
  }

  /** Join undoes Pieces, and no piece contains the separator. */
  lemma {:induction false} JoinPieces(s: string, sep: char)
    ensures Join(Pieces(s, sep), sep) == s
    ensures SepFree(Pieces(s, sep), sep)
  {
    if |s| > 0 {
      JoinPieces(s[1..], sep);
      var rest := Pieces(s[1..], sep);
      if s[0] == sep {
        assert ([""] + rest)[1..] == rest;
        assert s == [s[0]] + s[1..];
      } else {
        JoinCons(s[0], rest, sep);
        assert s == [s[0]] + s[1..];
        var ps := Pieces(s, sep);
        forall k | 0 <= k < |ps| ensures sep !in ps[k] {
          if k == 0 {
            assert ps[0] == [s[0]] + rest[0];
          } else {
            assert ps[k] == rest[k];
          }
        }
      }
    }
  }

  /** Pieces undoes Join on separator-free parts. */
  lemma {:induction false} PiecesJoin(parts: seq<string>, sep: char)
    requires |parts| >= 1 && SepFree(parts, sep)
    ensures Pieces(Join(parts, sep), sep) == parts
    decreases |parts|, |parts[0]|
  {
    var p0 := parts[0];
    if |p0| == 0 {
      if |parts| > 1 {
        PiecesJoin(parts[1..], sep);
        assert Join(parts, sep) == [sep] + Join(parts[1..], sep);
        assert Join(parts, sep)[1..] == Join(parts[1..], sep);
      }
    } else {
      var tail := [p0[1..]] + parts[1..];
      assert SepFree(tail, sep) by {
        forall k | 0 <= k < |tail| ensures sep !in tail[k] {
          if k == 0 {
            assert p0 == [p0[0]] + p0[1..];
          } else {
            assert tail[k] == parts[k];
          }
        }
      }
      PiecesJoin(tail, sep);
      assert tail[1..] == parts[1..];
      JoinCons(p0[0], tail, sep);
      assert [[p0[0]] + tail[0]] + tail[1..] == parts by {
        assert [p0[0]] + p0[1..] == p0;
      }
      var j := Join(parts, sep);
      assert j == [p0[0]] + Join(tail, sep);
      assert j[1..] == Join(tail, sep);
      assert j[0] == p0[0] && p0[0] != sep;
    }
  }

  /** What Split keeps: without the separator the whole string; with it, the
      pieces in order up to the last non-empty one, none containing `sep`. */
  lemma SplitPieces(s: string, sep: char)
    ensures sep !in s ==> Split(s, sep) == [s]
    ensures sep in s ==> Split(s, sep) == Pieces(s, sep)[..|Split(s, sep)|]
    ensures sep in s ==> forall k :: |Split(s, sep)| <= k < |Pieces(s, sep)| ==> Pieces(s, sep)[k] == ""
    ensures SepFree(Split(s, sep), sep)
  {
    JoinPieces(s, sep);
  }

  /** No character other than `sep` follows the first `sep` in `s`. */
  predicate OnlySepAfterFirst(s: string, sep: char) {
    forall i, j :: 0 <= i < j < |s| && s[i] == sep ==> s[j] == sep
  }

  predicate AllEmpty(ps: seq<string>, from: nat) {
    forall k :: from <= k < |ps| ==> ps[k] == ""
  }

  predicate AllSep(s: string, sep: char) {
    forall i :: 0 <= i < |s| ==> s[i] == sep
  }

  lemma {:induction false} PiecesAllEmpty(s: string, sep: char)
    ensures AllEmpty(Pieces(s, sep), 0) <==> AllSep(s, sep)
  {
    if |s| > 0 {
      var t := s[1..];
      PiecesAllEmpty(t, sep);
      var rest := Pieces(t, sep);
      if s[0] == sep {
        var ps := [""] + rest;
        assert Pieces(s, sep) == ps;
        if AllEmpty(rest, 0) {
          forall k | 0 <= k < |ps| ensures ps[k] == "" {
            if k > 0 { assert ps[k] == rest[k - 1]; }
          }
        }
        if AllEmpty(ps, 0) {
          forall k | 0 <= k < |rest| ensures rest[k] == "" {
            assert ps[k + 1] == rest[k];
          }
        }
        if AllSep(t, sep) {
          forall i | 0 <= i < |s| ensures s[i] == sep {
            if i > 0 { assert s[i] == t[i - 1]; }
          }
        }
        if AllSep(s, sep) {
          forall i | 0 <= i < |t| ensures t[i] == sep {
            assert s[i + 1] == t[i];
          }
        }
      } else {
        assert Pieces(s, sep)[0] == [s[0]] + rest[0];
      }
    }
  }

  /** Every piece after the first is empty exactly when nothing but separators
      follows the first separator. */
  lemma {:induction false} PiecesTailEmpty(s: string, sep: char)
    ensures AllEmpty(Pieces(s, sep), 1) <==> OnlySepAfterFirst(s, sep)
  {
    if |s| > 0 {
      var t := s[1..];
      var rest := Pieces(t, sep);
      if s[0] == sep {
        PiecesAllEmpty(t, sep);
        var ps := [""] + rest;
        assert Pieces(s, sep) == ps;
        if AllEmpty(rest, 0) {
          forall k | 1 <= k < |ps| ensures ps[k] == "" {
            assert ps[k] == rest[k - 1];
          }
        }
        if AllEmpty(ps, 1) {
          forall k | 0 <= k < |rest| ensures rest[k] == "" {
            assert ps[k + 1] == rest[k];
          }
        }
        if AllSep(t, sep) {
          forall i, j | 0 <= i < j < |s| && s[i] == sep ensures s[j] == sep {
            assert s[j] == t[j - 1];
          }
        }
        if OnlySepAfterFirst(s, sep) {
          forall i | 0 <= i < |t| ensures t[i] == sep {
            assert s[0] == sep && s[i + 1] == t[i];
          }
        }
      } else {
        PiecesTailEmpty(t, sep);
        var ps := [[s[0]] + rest[0]] + rest[1..];
        assert Pieces(s, sep) == ps;
        assert forall k :: 1 <= k < |ps| ==> ps[k] == rest[k];
        if OnlySepAfterFirst(t, sep) {
          forall i, j | 0 <= i < j < |s| && s[i] == sep ensures s[j] == sep {
            assert t[i - 1] == sep && t[j - 1] == s[j];
          }
        }
        if OnlySepAfterFirst(s, sep) {
          forall i, j | 0 <= i < j < |t| && t[i] == sep ensures t[j] == sep {
            assert s[i + 1] == sep && s[j + 1] == t[j];
          }
        }
      }
    }
  }

  /** `split` gives fewer than two pieces exactly when nothing but separators
      follows the first separator: a string without it, or one whose pieces after
      the first are all empty and dropped. */
  lemma SplitFewerThanTwo(s: string, sep: char)
    ensures |Split(s, sep)| < 2 <==> OnlySepAfterFirst(s, sep)
  {
    PiecesTailEmpty(s, sep);
    if sep in s {
      var ps := Pieces(s, sep);
      var r := Split(s, sep);
      if |r| >= 2 {
        assert ps[|r| - 1] == r[|r| - 1];
      }
    }
  }

  // ---------------------------------------------------------------- trim

  /** String.trim removes every character up to U+0020 from both ends. */
  predicate IsJavaSpace(c: char) {
    c <= ' '
  }

  function LeadingSpaces(s: string): (n: nat)
    ensures n <= |s|
    ensures forall k :: 0 <= k < n ==> IsJavaSpace(s[k])
    ensures n == |s| || !IsJavaSpace(s[n])
  {
    if |s| > 0 && IsJavaSpace(s[0]) then 1 + LeadingSpaces(s[1..]) else 0
  }

  function TrailingSpaces(s: string): (n: nat)
    ensures n <= |s|
    ensures forall k :: |s| - n <= k < |s| ==> IsJavaSpace(s[k])
    ensures n == |s| || !IsJavaSpace(s[|s| - 1 - n])
  {
    if |s| > 0 && IsJavaSpace(s[|s| - 1]) then 1 + TrailingSpaces(s[..|s| - 1]) else 0
  }

  /** String.trim: the result is the slice of `s` that neither starts nor ends
      with a space, and everything cut away on either side is space. */
  function Trim(s: string): (r: string)
    ensures |r| <= |s|
    ensures r == [] || (!IsJavaSpace(r[0]) && !IsJavaSpace(r[|r| - 1]))
    ensures var i := LeadingSpaces(s);
      i + |r| <= |s| && r == s[i..i + |r|] &&
      forall k :: i + |r| <= k < |s| ==> IsJavaSpace(s[k])
  {
    var i := LeadingSpaces(s);
    if i == |s| then []
    else
      var j := |s| - TrailingSpaces(s);
      assert i < j;
      s[i..j]
  }

  /** Trimming adds no character. */
  lemma TrimKeepsOut(s: string, c: char)
    requires c !in s
    ensures c !in Trim(s)
  {
    var r := Trim(s);
    var i := LeadingSpaces(s);
    forall k | 0 <= k < |r| ensures r[k] != c {
      assert r[k] == s[i + k];
    }
  }

  /** Trimming twice is trimming once. */
  lemma TrimIdempotent(s: string)
    ensures Trim(Trim(s)) == Trim(s)
  {
    var t := Trim(s);
    if t != [] {
      assert LeadingSpaces(t) == 0;
      assert TrailingSpaces(t) == 0;
      assert t[0..|t|] == t;
    }
  }

  // ---------------------------------------------------------------- lists

  /** Collections.reverse. */
  function Reversed<T>(s: seq<T>): (r: seq<T>)
    ensures |r| == |s|
    ensures forall k :: 0 <= k < |s| ==> r[k] == s[|s| - 1 - k]
  {
    if s == [] then [] else [s[|s| - 1]] + Reversed(s[..|s| - 1])
  }

  // ---------------------------------------------------------------- integers

  /** The code point of the zero of the block of ten decimal digits (Unicode
      general category Nd) that holds `x`, or -1 when there is none. The blocks
      are those of the Basic Multilingual Plane as of Unicode 7.0: ASCII,
      Arabic-Indic, Devanagari, ..., fullwidth. Java's `char` is a UTF-16 code
      unit, so the digits outside this plane never reach `Character.digit`. */
  function DigitZero(x: int): (z: int)
    ensures z == -1 || z <= x < z + 10
  {
    if 0x0030 <= x < 0x003A then 0x0030
    else if 0x0660 <= x < 0x066A then 0x0660
    else if 0x06F0 <= x < 0x06FA then 0x06F0
    else if 0x07C0 <= x < 0x07CA then 0x07C0
    else if 0x0966 <= x < 0x0970 then 0x0966
    else if 0x09E6 <= x < 0x09F0 then 0x09E6
    else if 0x0A66 <= x < 0x0A70 then 0x0A66
    else if 0x0AE6 <= x < 0x0AF0 then 0x0AE6
    else if 0x0B66 <= x < 0x0B70 then 0x0B66
    else if 0x0BE6 <= x < 0x0BF0 then 0x0BE6
    else if 0x0C66 <= x < 0x0C70 then 0x0C66
    else if 0x0CE6 <= x < 0x0CF0 then 0x0CE6
    else if 0x0D66 <= x < 0x0D70 then 0x0D66
    else if 0x0DE6 <= x < 0x0DF0 then 0x0DE6
    else if 0x0E50 <= x < 0x0E5A then 0x0E50
    else if 0x0ED0 <= x < 0x0EDA then 0x0ED0
    else if 0x0F20 <= x < 0x0F2A then 0x0F20
    else if 0x1040 <= x < 0x104A then 0x1040
    else if 0x1090 <= x < 0x109A then 0x1090
    else if 0x17E0 <= x < 0x17EA then 0x17E0
    else if 0x1810 <= x < 0x181A then 0x1810
    else if 0x1946 <= x < 0x1950 then 0x1946
    else if 0x19D0 <= x < 0x19DA then 0x19D0
    else if 0x1A80 <= x < 0x1A8A then 0x1A80
    else if 0x1A90 <= x < 0x1A9A then 0x1A90
    else if 0x1B50 <= x < 0x1B5A then 0x1B50
    else if 0x1BB0 <= x < 0x1BBA then 0x1BB0
    else if 0x1C40 <= x < 0x1C4A then 0x1C40
    else if 0x1C50 <= x < 0x1C5A then 0x1C50
    else if 0xA620 <= x < 0xA62A then 0xA620
    else if 0xA8D0 <= x < 0xA8DA then 0xA8D0
    else if 0xA900 <= x < 0xA90A then 0xA900
    else if 0xA9D0 <= x < 0xA9DA then 0xA9D0
    else if 0xA9F0 <= x < 0xA9FA then 0xA9F0
    else if 0xAA50 <= x < 0xAA5A then 0xAA50
    else if 0xABF0 <= x < 0xABFA then 0xABF0
    else if 0xFF10 <= x < 0xFF1A then 0xFF10
    else -1
  }

  /** Character.digit(c, 10), with None for its -1: the value of a decimal digit
      of any script, and the usual value of '0' .. '9'. */
  function DigitValue(c: char): (r: Option<nat>)
    ensures r.Some? ==> r.value < 10
    ensures '0' <= c <= '9' ==> r == Some(c as int - '0' as int)
  {
    var z := DigitZero(c as int);
    if z == -1 then None else Some(c as int - z)
  }

  predicate IsDigit(c: char) {
    DigitValue(c).Some?
  }

  predicate AllDigits(s: string) {
    forall k :: 0 <= k < |s| ==> IsDigit(s[k])
  }

  /** The value of a string of decimal digits, most significant first. */
  function DigitsValue(ds: string): nat
    requires AllDigits(ds)
  {
    if ds == [] then 0
    else 10 * DigitsValue(ds[..|ds| - 1]) + DigitValue(ds[|ds| - 1]).value
  }

  /** Integer.parseInt: an optional '-' or '+', then at least one decimal digit
      (of any script, as `Character.digit` reads them), and a value that fits in
      32 bits; anything else is a NumberFormatException, modelled as None. */
  function ParseInt(s: string): (r: Option<int>)
    ensures r.Some? ==> IntMin <= r.value <= IntMax
    ensures r.Some? && r.value < 0 ==> |s| > 0 && s[0] == '-'
    ensures r.Some? ==> |s| > 0 && (s[0] == '-' || s[0] == '+' || IsDigit(s[0]))
    ensures r.Some? ==> (|s| > 1 || IsDigit(s[0])) && forall k :: 1 <= k < |s| ==> IsDigit(s[k])
  {
    if |s| == 0 then None
    else
      var digits := if s[0] == '-' || s[0] == '+' then s[1..] else s;
      if |digits| == 0 || !AllDigits(digits) then None
      else
        var magnitude: int := DigitsValue(digits);
        var v := if s[0] == '-' then -magnitude else magnitude;
        if IntMin <= v <= IntMax then Some(v) else None
  }

  function DigitChar(d: nat): (c: char)
    requires d < 10
    ensures '0' <= c <= '9' && DigitValue(c) == Some(d)
  {
    (('0' as int) + d) as char
  }

  /** The decimal digits of `n` in ASCII, without leading zeros. */
  function ShowNat(n: nat): (r: string)
    ensures |r| >= 1
    ensures forall k :: 0 <= k < |r| ==> '0' <= r[k] <= '9'
  {
    if n < 10 then [DigitChar(n)] else ShowNat(n / 10) + [DigitChar(n % 10)]
  }

  /** String.valueOf(int). */
  function ValueOf(n: int): string {
    if n < 0 then "-" + ShowNat(-n) else ShowNat(n)
  }

  lemma AsciiDigits(s: string)
    requires forall k :: 0 <= k < |s| ==> '0' <= s[k] <= '9'
    ensures AllDigits(s)
  {
    forall k | 0 <= k < |s| ensures IsDigit(s[k]) {
      assert DigitValue(s[k]).Some?;
    }
  }

  lemma {:induction false} DigitsValueShowNat(n: nat)
    ensures AllDigits(ShowNat(n)) && DigitsValue(ShowNat(n)) == n
  {
    AsciiDigits(ShowNat(n));
    if n >= 10 {
      DigitsValueShowNat(n / 10);
      var r := ShowNat(n);
      assert r[..|r| - 1] == ShowNat(n / 10);
    }
  }

  /** Integer.parseInt of an optional minus sign and unsigned digits. */
  lemma ParseIntDigits(s: string, digits: string, v: int)
    requires |digits| > 0 && AllDigits(digits) && digits[0] != '-' && digits[0] != '+'
    requires (s == digits && v == DigitsValue(digits)) || (s == "-" + digits && v == 0 - DigitsValue(digits))
    requires IntMin <= v <= IntMax
    ensures ParseInt(s) == Some(v)
  {
    if s != digits {
      assert s[0] == '-' && s[1..] == digits;
    }
  }

  /** Integer.parseInt(String.valueOf(n)) == n for every 32-bit n. */
  lemma ParseIntValueOf(n: int)
    requires IntMin <= n <= IntMax
    ensures ParseInt(ValueOf(n)) == Some(n)
  {
    var m: nat := if n < 0 then -n else n;
    DigitsValueShowNat(m);
    var digits := ShowNat(m);
    assert '0' <= digits[0] <= '9';
    ParseIntDigits(ValueOf(n), digits, n);
  }

  /** Digits of other scripts count as `Character.digit` reads them: Arabic-Indic
      five and fullwidth forty-two. */
  lemma NonAsciiDigits()
    ensures ParseInt("\U{0665}") == Some(5)
    ensures ParseInt("\U{FF14}\U{FF12}") == Some(42)
    ensures ParseInt("-\U{0966}") == Some(0)
  {
    assert DigitsValue("\U{FF14}\U{FF12}"[..1]) == 4;
  }
}
