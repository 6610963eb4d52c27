/** Link-layer addresses: six octets or four words, printed and parsed. */
module Mac {
  import opened Dom
  import opened Bytes
  import opened Text
  import opened Hex

  datatype Kind = Mac48 | Mac64 {
    /** Hex digits of one part. */
    function Width(): nat { if Mac48? then 2 else 4 }
    function Count(): nat { if Mac48? then 6 else 4 }

    predicate Address(words: seq<nat>) {
      |words| == Count() && forall i :: 0 <= i < |words| ==> words[i] < Pow(16, Width())
    }
  }

  // ---- printing ---------------------------------------------------------

  /** As many hex digits as the number needs. */
  function StreamHex(n: nat): string {
    if n < 16 then [Digit(n)] else StreamHex(n / 16) + [Digit(n % 16)]
  }

  function Padded(s: string, width: nat): string {
    (if |s| < width then Zeros(width - |s|) else "") + s
  }

  function Zeros(n: nat): (r: string)
    ensures |r| == n
  {
    seq(n, _ => '0')
  }

  lemma {:induction false} ZeroHex(width: nat)
    ensures FixedHex(0, width) == Zeros(width)
    decreases width
  {
    if width > 0 { ZeroHex(width - 1); }
  }

  /** Minimal digits padded with zeros are the fixed-width text of every number that fits. */
  lemma {:induction false} PaddedIsFixed(n: nat, width: nat)
    requires width > 0 && n < Pow(16, width)
    ensures Padded(StreamHex(n), width) == FixedHex(n, width)
    decreases width
  {
    if n < 16 {
      ZeroHex(width - 1);
      assert n / 16 == 0 && n % 16 == n;
    } else {
      assert width > 1 by { assert Pow(16, 1) == 16 * Pow(16, 0) == 16; }
      PaddedIsFixed(n / 16, width - 1);
      assert Padded(StreamHex(n / 16) + [Digit(n % 16)], width)
        == Padded(StreamHex(n / 16), width - 1) + [Digit(n % 16)];
    }
  }

  function Printed(k: Kind, words: seq<nat>): string { Joined(Texts(words, k.Width()), ":") }

  method Print(k: Kind, words: seq<nat>) returns (os: string)
    requires k.Address(words)
    ensures os == Printed(k, words)
  {
    os := "";
    var initial := true;
    for i := 0 to |words|
      invariant initial == (i == 0)
      invariant os == Joined(Texts(words, k.Width())[..i], ":")
    {
      if initial { initial := false; } else { os := os + ":"; }
      var t := Padded(StreamHex(words[i]), k.Width());
      PaddedIsFixed(words[i], k.Width());
      var done := Texts(words, k.Width())[..i];
      assert Texts(words, k.Width())[..i + 1] == done + [t];
      JoinedSnoc(done, t, ":");
      os := os + t;
    }
    assert Texts(words, k.Width())[..|words|] == Texts(words, k.Width());
  }

  // ---- parsing ----------------------------------------------------------

  /** The parts between colons, empty ones included. */
  function Split(s: string): (parts: seq<string>)
    ensures |parts| >= 1
  {
    if s == "" then [""]
    else
      var rest := Split(s[1..]);
      if s[0] == ':' then [""] + rest else [[s[0]] + rest[0]] + rest[1..]
  }

  /** A missing second digit counts as zero; further characters are not looked at. */
  function OctetOf(part: string): nat {
    if part == "" then 0
    else if |part| == 1 then U8(part[0], 0 as char)
    else U8(part[0], part[1])
  }

  function WordOf(part: string): nat {
    if |part| == 4 then U8(part[0], part[1]) * 0x100 + U8(part[2], part[3]) else 0
  }

  function PartOf(k: Kind, part: string): nat { if k.Mac48? then OctetOf(part) else WordOf(part) }

  /** All zero unless there are exactly as many parts as the address has. */
  function Parsed(k: Kind, str: string): (words: seq<nat>)
    ensures |words| == k.Count()
  {
    var parts := Split(str);
    if |parts| == k.Count() then seq(|parts|, i requires 0 <= i < |parts| => PartOf(k, parts[i]))
    else seq(k.Count(), _ => 0)
  }

  /** The assertions made for one part: not empty, as an octet, and hex digits only. */
  predicate Asserts(k: Kind, part: string) { (k.Mac48? && part == "") || !IsHex(part) }

  predicate AnyAsserts(k: Kind, parts: seq<string>) { exists i :: 0 <= i < |parts| && Asserts(k, parts[i]) }

  /** Asserts exactly when the number of parts is right and one of them is not as expected. */
  method Parse(k: Kind, str: string) returns (address: seq<nat>, asserts: bool)
    ensures address == Parsed(k, str) && k.Address(address)
    ensures asserts <==> |Split(str)| == k.Count() && AnyAsserts(k, Split(str))
  {
    var a := new nat[k.Count()](_ => 0);
    var parts := Split(str);
    asserts := false;
    if |parts| == k.Count() {
      for i := 0 to |parts|
        invariant forall j :: 0 <= j < i ==> a[j] == PartOf(k, parts[j])
        invariant asserts <==> exists j :: 0 <= j < i && Asserts(k, parts[j])
      {
        a[i] := PartOf(k, parts[i]);
        asserts := asserts || Asserts(k, parts[i]);
      }
    }
    address := a[..];
    ParsedFits(k, str);
  }

  lemma ParsedFits(k: Kind, str: string)
    ensures k.Address(Parsed(k, str))
  {
  }

  // ---- splitting and joining --------------------------------------------

  lemma {:induction false} JoinSplit(s: string)
    ensures Joined(Split(s), ":") == s
    decreases |s|
  {
    if s != "" {
      JoinSplit(s[1..]);
      var rest := Split(s[1..]);
      assert Split(s)[1..] == if s[0] == ':' then rest else rest[1..];
      if s[0] == ':' {
        assert Joined(Split(s), ":") == "" + ":" + Joined(rest, ":");
        assert "" + ":" + s[1..] == s;
      } else if |rest| > 1 {
        assert [s[0]] + rest[0] + ":" + Joined(rest[1..], ":") == [s[0]] + (rest[0] + ":" + Joined(rest[1..], ":"));
      }
    }
  }

  lemma {:induction false} SplitFirst(p: string, rest: string)
    requires ':' !in p
    ensures Split(p) == [p]
    ensures Split(p + ":" + rest) == [p] + Split(rest)
    decreases |p|
  {
    var s := p + ":" + rest;
    if p == "" {
      assert s[1..] == rest;
    } else {
      SplitFirst(p[1..], rest);
      assert s[0] == p[0] && s[1..] == p[1..] + ":" + rest;
      assert [p[0]] + p[1..] == p;
    }
  }

  lemma {:induction false} SplitJoin(parts: seq<string>)
    requires parts != [] && forall i :: 0 <= i < |parts| ==> ':' !in parts[i]
    ensures Split(Joined(parts, ":")) == parts
    decreases |parts|
  {
    if |parts| == 1 {
      SplitFirst(parts[0], "");
    } else {
      var tail := parts[1..];
      assert forall i :: 0 <= i < |tail| ==> tail[i] == parts[i + 1];
      SplitJoin(tail);
      SplitFirst(parts[0], Joined(tail, ":"));
      assert Joined(parts, ":") == parts[0] + ":" + Joined(tail, ":");
      assert parts == [parts[0]] + tail;
    }
  }

  function LowerAll(parts: seq<string>): (r: seq<string>)
    ensures |r| == |parts| && forall i :: 0 <= i < |r| ==> r[i] == Lower(parts[i])
  {
    seq(|parts|, i requires 0 <= i < |parts| => Lower(parts[i]))
  }

  lemma {:induction false} SplitLower(s: string)
    ensures Split(Lower(s)) == LowerAll(Split(s))
    decreases |s|
  {
    if s == "" {
      assert Lower(s) == "";
    } else {
      SplitLower(s[1..]);
      assert Lower(s)[1..] == Lower(s[1..]);
      assert ToLower(s[0]) == ':' <==> s[0] == ':';
      if s[0] != ':' {
        assert Lower([s[0]] + Split(s[1..])[0]) == [ToLower(s[0])] + Lower(Split(s[1..])[0]);
      }
    }
  }

  /** Six parts of two digits, or four parts of four. */
  lemma KindLaw()
    ensures Mac48.Count() == 6 && Mac48.Width() == 2 && Mac64.Count() == 4 && Mac64.Width() == 4
  {
  }

  /** What malformed text gives: all zero for a wrong number of parts; for an octet, a missing digit
      counts as zero and characters after the second are not looked at; for a word, anything but
      four characters is zero. */
  lemma MalformedLaw(k: Kind, s: string, c: char, d: char, rest: string)
    ensures |Split(s)| != k.Count() ==> forall i :: 0 <= i < k.Count() ==> Parsed(k, s)[i] == 0
    ensures PartOf(Mac48, "") == 0 && PartOf(Mac48, [c]) == Nibble(c) * 16
    ensures PartOf(Mac48, [c, d] + rest) == U8(c, d)
    ensures |s| != 4 ==> PartOf(Mac64, s) == 0
    ensures |s| == 4 ==> PartOf(Mac64, s) == U8(s[0], s[1]) * 0x100 + U8(s[2], s[3])
  {
    assert Nibble(0 as char) == 0;
  }

  // ---- round trips ------------------------------------------------------

  lemma FourDigits(w: nat)
    ensures FixedHex(w, 4) == FixedHex(w / 0x100, 2) + FixedHex(w % 0x100, 2)
  {
    var a, b := w / 16 % 16, w % 16;
    DivTwice(w, 16, 16);
    DivUnique(w % 0x100, 16, a, b);
    TwoDigits(w / 0x100);
    TwoDigits(w % 0x100);
    assert FixedHex(w, 4) == FixedHex(w / 16, 3) + [Digit(b)];
    assert FixedHex(w / 16, 3) == FixedHex(w / 0x100, 2) + [Digit(a)];
  }

  predicate WellFormed(k: Kind, part: string) { |part| == k.Width() && IsHex(part) }

  /** Decoding one printed part gives it back. */
  lemma {:induction false} PartPrinted(k: Kind, w: nat)
    requires w < Pow(16, k.Width())
    ensures var t := FixedHex(w, k.Width()); PartOf(k, t) == w && WellFormed(k, t) && Lower(t) == t && ':' !in t
  {
    assert Pow(16, 2) == 16 * Pow(16, 1) && Pow(16, 1) == 16 * Pow(16, 0);
    if k.Mac48? {
      ByteRoundTrip(w);
    } else {
      assert Pow(16, 4) == 16 * Pow(16, 3) && Pow(16, 3) == 16 * Pow(16, 2);
      FourDigits(w);
      ByteRoundTrip(w / 0x100);
      ByteRoundTrip(w % 0x100);
    }
  }

  /** Printing one decoded part gives its lower case, for a well-formed one. */
  lemma PartParsed(k: Kind, part: string)
    requires WellFormed(k, part)
    ensures FixedHex(PartOf(k, part), k.Width()) == Lower(part)
  {
    if k.Mac48? {
      PairRoundTrip(part[0], part[1]);
      assert Lower(part) == [ToLower(part[0]), ToLower(part[1])];
    } else {
      WordParsed(part);
    }
  }

  lemma WordParsed(part: string)
    requires |part| == 4 && IsHex(part)
    ensures FixedHex(WordOf(part), 4) == Lower(part)
  {
    var w, hi, lo := WordOf(part), U8(part[0], part[1]), U8(part[2], part[3]);
    FourDigits(w);
    assert w / 0x100 == hi && w % 0x100 == lo by { DivUnique(w, 0x100, hi, lo); }
    assert FixedHex(hi, 2) == [ToLower(part[0]), ToLower(part[1])] by { PairRoundTrip(part[0], part[1]); }
    assert FixedHex(lo, 2) == [ToLower(part[2]), ToLower(part[3])] by { PairRoundTrip(part[2], part[3]); }
    LowerFour(part);
  }

  lemma LowerFour(part: string)
    requires |part| == 4
    ensures Lower(part) == [ToLower(part[0]), ToLower(part[1])] + [ToLower(part[2]), ToLower(part[3])]
  {
  }

  lemma SplitPrinted(k: Kind, words: seq<nat>)
    requires k.Address(words)
    ensures Split(Printed(k, words)) == Texts(words, k.Width())
  {
    forall i | 0 <= i < |words| ensures ':' !in Texts(words, k.Width())[i] {
      PartPrinted(k, words[i]);
    }
    SplitJoin(Texts(words, k.Width()));
  }

  /** Parsing undoes printing for every address. */
  lemma PrintedThenParsed(k: Kind, words: seq<nat>)
    requires k.Address(words)
    ensures Parsed(k, Printed(k, words)) == words
  {
    SplitPrinted(k, words);
    forall i | 0 <= i < |words| ensures PartOf(k, Texts(words, k.Width())[i]) == words[i] {
      PartPrinted(k, words[i]);
    }
  }

  predicate AllWellFormed(k: Kind, parts: seq<string>) {
    |parts| == k.Count() && forall i :: 0 <= i < |parts| ==> WellFormed(k, parts[i])
  }

  lemma {:induction false} WellFormedParts(k: Kind, s: string)
    requires AllWellFormed(k, Split(s))
    ensures Texts(Parsed(k, s), k.Width()) == LowerAll(Split(s))
  {
    forall i | 0 <= i < k.Count() ensures Texts(Parsed(k, s), k.Width())[i] == LowerAll(Split(s))[i] {
      PartParsed(k, Split(s)[i]);
    }
  }

  lemma PrintedParts(k: Kind, words: seq<nat>, parts: seq<string>)
    requires k.Address(words) && Texts(words, k.Width()) == LowerAll(parts)
    ensures AllWellFormed(k, parts)
  {
    forall i | 0 <= i < |parts| ensures WellFormed(k, parts[i]) {
      PartPrinted(k, words[i]);
      var t := Lower(parts[i]);
      assert t == FixedHex(words[i], k.Width());
      forall j | 0 <= j < |parts[i]| ensures IsHexChar(parts[i][j]) {
        assert IsHexChar(t[j]);
      }
    }
  }

  /** Printing a parsed text gives the text in lower case if and only if it consists of the
      right number of parts, each of exactly the right number of hex digits. */
  lemma {:induction false} ParsedThenPrinted(k: Kind, s: string)
    ensures Printed(k, Parsed(k, s)) == Lower(s) <==> AllWellFormed(k, Split(s))
  {
    SplitLower(s);
    if Printed(k, Parsed(k, s)) == Lower(s) {
      ParsedFits(k, s);
      SplitPrinted(k, Parsed(k, s));
      PrintedParts(k, Parsed(k, s), Split(s));
    }
    if AllWellFormed(k, Split(s)) {
      WellFormedParts(k, s);
      JoinSplit(Lower(s));
    }
  }
}
