/** Hexadecimal text of numbers and buffers. */
module Hex {
  import opened Dom
  import opened Bytes
  import opened Text

  /** The digits are 0 to 9 and a to f. */
  function Digit(d: nat): char requires d < 16 { if d < 10 then '0' + d as char else 'a' + (d - 10) as char }

  predicate IsHexChar(c: char) { 'a' <= c <= 'f' || 'A' <= c <= 'F' || '0' <= c <= '9' }
  predicate IsHex(s: string) { forall i :: 0 <= i < |s| ==> IsHexChar(s[i]) }

  /** Anything that is not a hex digit counts as zero. */
  function Nibble(c: char): (n: nat)
    ensures n < 16
  {
    if 'a' <= c <= 'f' then (c - 'a') as nat + 10
    else if 'A' <= c <= 'F' then (c - 'A') as nat + 10
    else if '0' <= c <= '9' then (c - '0') as nat
    else 0
  }

  function U8(c1: char, c2: char): Byte { Nibble(c1) * 16 + Nibble(c2) }

  lemma DigitOfNibble(c: char)
    ensures Digit(Nibble(c)) == ToLower(c) <==> IsHexChar(c)
  {
  }

  lemma NibbleOfDigit(d: nat)
    requires d < 16
    ensures Nibble(Digit(d)) == d && IsHexChar(Digit(d)) && ToLower(Digit(d)) == Digit(d)
  {
  }

  /** The digits and their values, small and capital; no other character is a digit. */
  lemma DigitsExactly(d: nat, c: char)
    requires d < 16
    ensures Digit(d) == "0123456789abcdef"[d] && Nibble("0123456789abcdef"[d]) == d
      && Nibble("0123456789ABCDEF"[d]) == d
    ensures IsHexChar(c) <==> c in "0123456789abcdef" || c in "0123456789ABCDEF"
    ensures !IsHexChar(c) ==> Nibble(c) == 0
  {
  }

  /** Of two digits the first counts sixteen times. */
  lemma TwoDigitValue(c1: char, c2: char)
    ensures U8(c1, c2) == Nibble(c1) * 16 + Nibble(c2)
  {
  }

  // ---- one number -------------------------------------------------------

  /** The last n hex digits of a number, negative ones in two's complement. */
  function FixedHex(w: int, n: nat): (s: string)
    ensures |s| == n
    decreases n
  {
    if n == 0 then "" else FixedHex(w / 16, n - 1) + [Digit(w % 16)]
  }

  lemma {:induction false} FixedHexAt(w: int, n: nat, idx: nat)
    requires idx < n
    ensures Pow(16, n - 1 - idx) > 0 && FixedHex(w, n)[idx] == Digit(w / Pow(16, n - 1 - idx) % 16)
    decreases n
  {
    PowPositive(16, n - 1 - idx);
    if idx < n - 1 {
      PowPositive(16, n - 2 - idx);
      FixedHexAt(w / 16, n - 1, idx);
      DivTwice(w, 16, Pow(16, n - 2 - idx));
    } else {
      assert w / 1 == w;
    }
  }

  lemma {:induction false} PowShift(k: nat)
    ensures Pow(2, 4 * k) == Pow(16, k)
    decreases k
  {
    if k > 0 {
      PowShift(k - 1);
      var e := 4 * (k - 1);
      assert Pow(2, e + 4) == 2 * Pow(2, e + 3) && Pow(2, e + 3) == 2 * Pow(2, e + 2);
      assert Pow(2, e + 2) == 2 * Pow(2, e + 1) && Pow(2, e + 1) == 2 * Pow(2, e);
    }
  }

  /** Writes the digits from the front while the shift falls. */
  method ToHex(w: int, n: nat) returns (str: string)
    ensures str == FixedHex(w, n)
  {
    var a := new char[n](_ => '0');
    var idx, pos := 0, (n - 1) * 4;
    while idx < n
      invariant 0 <= idx <= n && pos == (n - 1 - idx) * 4
      invariant forall i :: 0 <= i < idx ==> a[i] == FixedHex(w, n)[i]
    {
      FixedHexAt(w, n, idx);
      PowShift(n - 1 - idx);
      a[idx] := Digit((w / Pow(2, pos)) % 16);
      idx, pos := idx + 1, pos - 4;
    }
    str := a[..];
  }

  // ---- buffers ----------------------------------------------------------

  /** A byte as the signed char it is copied into. */
  function Char(b: Byte): int { if b < 0x80 then b else b - 0x100 }

  lemma {:induction false} CharHex(b: Byte)
    ensures FixedHex(Char(b), 2) == FixedHex(b, 2)
  {
  }

  function Texts(words: seq<nat>, n: nat): (r: seq<string>)
    ensures |r| == |words| && forall i :: 0 <= i < |r| ==> r[i] == FixedHex(words[i], n)
  {
    seq(|words|, i requires 0 <= i < |words| => FixedHex(words[i], n))
  }

  function Joined(parts: seq<string>, sp: string): string {
    if parts == [] then ""
    else if |parts| == 1 then parts[0]
    else parts[0] + sp + Joined(parts[1..], sp)
  }

  lemma {:induction false} JoinedSnoc(parts: seq<string>, last: string, sp: string)
    ensures Joined(parts + [last], sp) == Joined(parts, sp) + (if parts == [] then "" else sp) + last
    decreases |parts|
  {
    if parts == [] {
      assert parts + [last] == [last];
    } else {
      var all := parts + [last];
      assert all[0] == parts[0] && all[1..] == parts[1..] + [last];
      JoinedSnoc(parts[1..], last, sp);
      if |parts| > 1 {
        var first, mid := parts[0] + sp, Joined(parts[1..], sp);
        assert first + (mid + sp + last) == first + mid + sp + last;
      } else {
        assert parts[1..] == [];
        assert "" + "" + last == last;
      }
    }
  }

  /** With a flag that is set after the first byte. */
  method BufferToHex(buffer: seq<Byte>, sp: Option<char>) returns (r: string)
    ensures r == Joined(Texts(buffer, 2), Separator(sp))
  {
    r := "";
    var flag := false;
    for i := 0 to |buffer|
      invariant flag == (i > 0)
      invariant r == Joined(Texts(buffer, 2)[..i], Separator(sp))
    {
      if sp.Some? {
        if flag {
          r := r + [sp.value];
        } else {
          flag := true;
        }
      } else {
        flag := true;
      }
      var c := ToHex(Char(buffer[i]), 2);
      CharHex(buffer[i]);
      var done := Texts(buffer, 2)[..i];
      assert Texts(buffer, 2)[..i + 1] == done + [c];
      JoinedSnoc(done, c, Separator(sp));
      r := r + c;
    }
    assert Texts(buffer, 2)[..|buffer|] == Texts(buffer, 2);
  }

  function Separator(sp: Option<char>): string { if sp.None? then "" else [sp.value] }

  /** Two digits make one byte; an odd number of digits makes none. */
  function HexBytes(s: string): seq<Byte> {
    if |s| % 2 != 0 || s == "" then [] else [U8(s[0], s[1])] + HexBytes(s[2..])
  }

  /** Asserts exactly when the number of digits is odd. */
  method HexToBuffer(str: string) returns (r: seq<Byte>, asserts: bool)
    ensures r == HexBytes(str) && asserts == (|str| % 2 != 0)
  {
    r, asserts := [], |str| % 2 != 0;
    if asserts { return; }
    var pos := 0;
    while pos != |str|
      invariant 0 <= pos <= |str| && (|str| - pos) % 2 == 0
      invariant HexBytes(str) == r + HexBytes(str[pos..])
      decreases |str| - pos
    {
      assert str[pos..][2..] == str[pos + 2..];
      r := r + [U8(str[pos], str[pos + 1])];
      pos := pos + 2;
    }
  }

  // ---- round trips ------------------------------------------------------

  lemma {:induction false} TwoDigits(w: int)
    ensures FixedHex(w, 2) == [Digit(w / 16 % 16), Digit(w % 16)]
  {
  }

  /** Printing a decoded pair gives the pair in lower case exactly when both are hex digits. */
  lemma PairRoundTrip(c1: char, c2: char)
    ensures FixedHex(U8(c1, c2), 2) == [ToLower(c1), ToLower(c2)] <==> IsHexChar(c1) && IsHexChar(c2)
  {
    TwoDigits(U8(c1, c2));
    DivUnique(U8(c1, c2), 16, Nibble(c1), Nibble(c2));
    DivUnique(Nibble(c1), 16, 0, Nibble(c1));
    DigitOfNibble(c1);
    DigitOfNibble(c2);
    var t := FixedHex(U8(c1, c2), 2);
    assert t[0] == Digit(Nibble(c1)) && t[1] == Digit(Nibble(c2));
  }

  lemma {:induction false} ByteRoundTrip(b: Byte)
    ensures var t := FixedHex(b, 2); U8(t[0], t[1]) == b && IsHex(t) && Lower(t) == t
  {
    TwoDigits(b);
    NibbleOfDigit(b / 16);
    NibbleOfDigit(b % 16);
  }

  /** Decoding undoes printing, for every buffer. */
  lemma {:induction false} BufferUndone(buffer: seq<Byte>)
    ensures HexBytes(Joined(Texts(buffer, 2), "")) == buffer
    decreases |buffer|
  {
    if buffer != [] {
      FirstText(buffer);
      ByteRoundTrip(buffer[0]);
      var t, rest := FixedHex(buffer[0], 2), Joined(Texts(buffer[1..], 2), "");
      BufferUndone(buffer[1..]);
      EvenText(buffer[1..]);
      assert (t + rest)[2..] == rest && (t + rest)[0] == t[0] && (t + rest)[1] == t[1];
    }
  }

  lemma FirstText(buffer: seq<Byte>)
    requires buffer != []
    ensures Joined(Texts(buffer, 2), "") == FixedHex(buffer[0], 2) + Joined(Texts(buffer[1..], 2), "")
  {
    var ts := Texts(buffer, 2);
    assert ts[1..] == Texts(buffer[1..], 2);
    assert ts[0] + "" == ts[0];
    if |buffer| == 1 {
      assert Joined(ts[1..], "") == "";
    }
  }

  lemma {:induction false} EvenText(buffer: seq<Byte>)
    ensures |Joined(Texts(buffer, 2), "")| == 2 * |buffer|
    decreases |buffer|
  {
    if buffer != [] {
      FirstText(buffer);
      EvenText(buffer[1..]);
    }
  }

  lemma IsHexFirst(s: string)
    requires |s| >= 2
    ensures IsHex(s) <==> IsHexChar(s[0]) && IsHexChar(s[1]) && IsHex(s[2..])
  {
    assert s == [s[0], s[1]] + s[2..];
  }

  lemma LowerFirst(s: string)
    requires |s| >= 2
    ensures Lower(s) == [ToLower(s[0]), ToLower(s[1])] + Lower(s[2..])
  {
  }

  /** Printing what was decoded gives the text in lower case. */
  predicate Undone(s: string) { Joined(Texts(HexBytes(s), 2), "") == Lower(s) }

  /** This is so if and only if the text was an even number of hex digits. */
  lemma TextUndone(s: string)
    ensures Undone(s) <==> |s| % 2 == 0 && IsHex(s)
  {
    forall t ensures PairLaw(Undone, t) {
      if |t| % 2 != 0 {
        OddUndone(t);
      } else if |t| >= 2 {
        TextPair(t);
      } else {
        EmptyUndone();
      }
    }
    ByPairs(Undone, s);
  }

  /** No odd text, the empty text, and a longer one if its first two characters are hex digits and the rest is fine. */
  predicate PairLaw(fine: string -> bool, s: string) {
    fine(s) <==> |s| % 2 == 0 && (s == "" || (IsHexChar(s[0]) && IsHexChar(s[1]) && fine(s[2..])))
  }

  lemma {:induction false} ByPairs(fine: string -> bool, s: string)
    requires forall t :: PairLaw(fine, t)
    ensures fine(s) <==> |s| % 2 == 0 && IsHex(s)
    decreases |s|
  {
    assert PairLaw(fine, s);
    if |s| >= 2 {
      ByPairs(fine, s[2..]);
      IsHexFirst(s);
    }
  }

  lemma EmptyUndone()
    ensures Undone("")
  {
    assert Texts([], 2) == [] && Lower("") == "";
  }

  lemma OddUndone(s: string)
    requires |s| % 2 != 0
    ensures !Undone(s)
  {
    EvenText(HexBytes(s));
    assert |Lower(s)| != 0;
  }

  /** The first two characters and the rest are independent of each other. */
  lemma TextPair(s: string)
    requires |s| >= 2 && |s| % 2 == 0
    ensures Undone(s) <==> IsHexChar(s[0]) && IsHexChar(s[1]) && Undone(s[2..])
  {
    var bytes := HexBytes(s);
    FirstText(bytes);
    assert bytes[0] == U8(s[0], s[1]) && bytes[1..] == HexBytes(s[2..]);
    PairRoundTrip(s[0], s[1]);
    LowerFirst(s);
    SamePrefix(FixedHex(bytes[0], 2), Joined(Texts(bytes[1..], 2), ""), [ToLower(s[0]), ToLower(s[1])], Lower(s[2..]));
  }

  lemma SamePrefix(a: string, x: string, b: string, y: string)
    requires |a| == |b|
    ensures a + x == b + y <==> a == b && x == y
  {
    if a + x == b + y {
      assert a == (a + x)[..|a|] && b == (b + y)[..|b|];
      assert x == (a + x)[|a|..] && y == (b + y)[|b|..];
    }
  }
}
