/** Transcoding UTF-16 to UTF-8 (kernel/util/unicode.h). `Forms` says what the two encodings of a sequence of code points
    are and why they keep its meaning; `Unicode` is the code, with its loops. */
module Forms {

  /** A code point that is a character: in range and not a surrogate. */
  predicate Scalar(c: nat) {
    c <= 0x10FFFF && !(0xD800 <= c <= 0xDFFF)
  }

  // ---- UTF-16 (sections 2.1 and 2.2 of RFC 2781) ----

  /** `utf16_encode_char` */
  function Utf16Char(c: nat): (u: seq<nat>)
    ensures 1 <= |u| <= 2
  {
    if c <= 0xFFFF then [c]
    else
      var d := c - 0x1_0000;
      [0xD800 + d / 0x400 % 0x400, 0xDC00 + d % 0x400]
  }

  /** The standard's own reading: one unit that is no surrogate, or a high and a low surrogate with ten bits each of what the
      number has above 0x1_0000. */
  predicate IsUtf16Form(u: seq<nat>, c: nat) {
    || (|u| == 1 && !(0xD800 <= u[0] <= 0xDFFF) && u[0] < 0x1_0000 && c == u[0])
    || (|u| == 2 && 0xD800 <= u[0] < 0xDC00 && 0xDC00 <= u[1] < 0xE000 && c == 0x1_0000 + (u[0] - 0xD800) * 0x400 + (u[1] - 0xDC00))
  }

  lemma UniqueUtf16Form(u: seq<nat>, c: nat)
    requires Scalar(c)
    ensures IsUtf16Form(u, c) <==> u == Utf16Char(c)
  {
  }

  function Utf16(cs: seq<nat>): seq<nat> {
    if cs == [] then [] else Utf16Char(cs[0]) + Utf16(cs[1..])
  }

  datatype Decoded = Decoded(ch: nat, pos: nat)

  /** `utf16_decode_char` from `pos` on; `high` is the last high surrogate seen. */
  function Decode(u: seq<nat>, pos: nat, high: nat): (r: Decoded)
    requires pos <= |u|
    ensures pos <= r.pos <= |u| && (pos < |u| ==> pos < r.pos)
    decreases |u| - pos
  {
    if pos == |u| then Decoded(0, pos)
    else
      var c := u[pos];
      if c < 0xD800 || c > 0xDFFF then Decoded(c, pos + 1)
      else if c >= 0xDC00 then Decoded(high * 0x400 + c % 0x400 + 0x1_0000, pos + 1)
      else Decode(u, pos + 1, c % 0x400)
  }

  function DecodeAll(u: seq<nat>, pos: nat): seq<nat>
    requires pos <= |u|
    decreases |u| - pos
  {
    if pos == |u| then [] else [Decode(u, pos, 0).ch] + DecodeAll(u, Decode(u, pos, 0).pos)
  }

  /** Code units are 16 bits wide. */
  predicate Units(u: seq<nat>) {
    forall i :: 0 <= i < |u| ==> u[i] < 0x1_0000
  }

  /** What is decoded, whatever stands there: high surrogates are passed over and only the last one is used; then a low one
      makes a character with it, or without it if there is none, any other unit stands for itself, and the end gives 0. */
  lemma DecodedIs(u: seq<nat>, pos: nat, k: nat)
    requires Units(u) && pos + k <= |u| && forall i :: pos <= i < pos + k ==> 0xD800 <= u[i] < 0xDC00
    ensures pos + k == |u| ==> Decode(u, pos, 0) == Decoded(0, |u|)
    ensures pos + k < |u| && !(0xD800 <= u[pos + k] <= 0xDFFF) ==> Decode(u, pos, 0) == Decoded(u[pos + k], pos + k + 1)
    ensures pos + k < |u| && 0xDC00 <= u[pos + k] <= 0xDFFF ==>
      var high := if k == 0 then 0 else u[pos + k - 1] - 0xD800;
      Decode(u, pos, 0) == Decoded(0x1_0000 + high * 0x400 + (u[pos + k] - 0xDC00), pos + k + 1)
  {
    DecodedFrom(u, pos, k, 0);
  }

  lemma {:induction false} DecodedFrom(u: seq<nat>, pos: nat, k: nat, high: nat)
    requires Units(u) && pos + k <= |u| && forall i :: pos <= i < pos + k ==> 0xD800 <= u[i] < 0xDC00
    ensures var last := if k == 0 then high else u[pos + k - 1] - 0xD800;
      Decode(u, pos, high) == if k == 0 then Decode(u, pos, high) else Decode(u, pos + k, last)
    decreases k
  {
    if k > 0 {
      DecodedFrom(u, pos + 1, k - 1, u[pos] - 0xD800);
    }
  }

  /** Decoding never makes a surrogate, whatever it is given. */
  lemma {:induction false} DecodedIsScalar(u: seq<nat>, pos: nat, high: nat)
    requires Units(u) && pos <= |u| && high < 0x400
    ensures Scalar(Decode(u, pos, high).ch)
    decreases |u| - pos
  {
    if pos < |u| && 0xD800 <= u[pos] < 0xDC00 {
      DecodedIsScalar(u, pos + 1, u[pos] % 0x400);
    }
  }

  lemma {:induction false} DecodedAreScalar(u: seq<nat>, pos: nat)
    requires Units(u) && pos <= |u|
    ensures forall c :: c in DecodeAll(u, pos) ==> Scalar(c)
    decreases |u| - pos
  {
    if pos < |u| {
      DecodedIsScalar(u, pos, 0);
      DecodedAreScalar(u, Decode(u, pos, 0).pos);
    }
  }

  /** One character, wherever it stands. */
  lemma CharRoundTrip(u: seq<nat>, pos: nat, c: nat)
    requires Scalar(c) && pos + |Utf16Char(c)| <= |u| && u[pos..pos + |Utf16Char(c)|] == Utf16Char(c)
    ensures Decode(u, pos, 0) == Decoded(c, pos + |Utf16Char(c)|)
  {
  }

  lemma FirstInPlace(before: seq<nat>, first: seq<nat>, after: seq<nat>)
    ensures before + (first + after) == before + first + after
    ensures (before + (first + after))[|before|..|before| + |first|] == first
  {
  }

  lemma {:induction false} RoundTripFrom(before: seq<nat>, cs: seq<nat>)
    requires forall c :: c in cs ==> Scalar(c)
    ensures DecodeAll(before + Utf16(cs), |before|) == cs
    decreases |cs|
  {
    hide Utf16Char, Decode, Scalar, DecodeAll, Utf16;
    UnitsOfNone();
    if cs == [] {
      NothingToDecode(before);
    } else {
      var u, first, after := before + Utf16(cs), Utf16Char(cs[0]), Utf16(cs[1..]);
      assert cs[0] in cs && forall c :: c in cs[1..] ==> c in cs;
      UnitsOfFirst(cs);
      FirstInPlace(before, first, after);
      CharRoundTrip(u, |before|, cs[0]);
      RoundTripFrom(before + first, cs[1..]);
      DecodeFirst(u, |before|);
    }
  }

  lemma UnitsOfNone()
    ensures Utf16([]) == []
  {
  }

  lemma UnitsOfFirst(cs: seq<nat>)
    requires cs != []
    ensures Utf16(cs) == Utf16Char(cs[0]) + Utf16(cs[1..]) && Utf16Char(cs[0]) != []
  {
  }

  lemma NothingToDecode(u: seq<nat>)
    ensures DecodeAll(u + [], |u|) == []
  {
    assert u + [] == u;
  }

  lemma DecodeFirst(u: seq<nat>, pos: nat)
    requires pos < |u|
    ensures DecodeAll(u, pos) == [Decode(u, pos, 0).ch] + DecodeAll(u, Decode(u, pos, 0).pos)
  {
  }

  lemma {:induction false} UnitsOf(cs: seq<nat>)
    ensures Units(Utf16(cs))
  {
    if cs != [] {
      UnitsOf(cs[1..]);
    }
  }

  /** Encoding and then decoding gives a sequence back exactly when it holds characters only. */
  lemma RoundTripIff(cs: seq<nat>)
    ensures DecodeAll(Utf16(cs), 0) == cs <==> forall c :: c in cs ==> Scalar(c)
  {
    if forall c :: c in cs ==> Scalar(c) {
      RoundTripFrom([], cs);
      assert [] + Utf16(cs) == Utf16(cs);
    } else {
      UnitsOf(cs);
      DecodedAreScalar(Utf16(cs), 0);
    }
  }

  // ---- UTF-8 (section 3 of RFC 3629) ----

  /** `utf8_encode_char` */
  function Utf8Char(c: nat): (b: seq<nat>)
    ensures 1 <= |b| <= 4
  {
    if c <= 0x7F then [c]
    else if c <= 0x7FF then [0xC0 + c / 0x40 % 0x20, 0x80 + c % 0x40]
    else if c <= 0xFFFF then [0xE0 + c / 0x1000 % 0x10, 0x80 + c / 0x40 % 0x40, 0x80 + c % 0x40]
    else if c <= 0x10FFFF then [0xF0 + c / 0x4_0000 % 8, 0x80 + c / 0x1000 % 0x40, 0x80 + c / 0x40 % 0x40, 0x80 + c % 0x40]
    else [0xEF, 0xBF, 0xBD]
  }

  function Utf8(cs: seq<nat>): seq<nat> {
    if cs == [] then [] else Utf8Char(cs[0]) + Utf8(cs[1..])
  }

  predicate Tail(b: nat) {
    0x80 <= b < 0xC0
  }

  /** The standard's own reading: the bytes say their length and their bits, and the length is the least that holds the
      number. */
  predicate IsForm(b: seq<nat>, c: nat) {
    || (|b| == 1 && b[0] < 0x80 && c == b[0])
    || (|b| == 2 && 0xC0 <= b[0] < 0xE0 && Tail(b[1]) && 0x80 <= c && c == (b[0] - 0xC0) * 0x40 + (b[1] - 0x80))
    || (|b| == 3 && 0xE0 <= b[0] < 0xF0 && Tail(b[1]) && Tail(b[2]) && 0x800 <= c
        && c == (b[0] - 0xE0) * 0x1000 + (b[1] - 0x80) * 0x40 + (b[2] - 0x80))
    || (|b| == 4 && 0xF0 <= b[0] < 0xF8 && Tail(b[1]) && Tail(b[2]) && Tail(b[3]) && 0x1_0000 <= c
        && c == (b[0] - 0xF0) * 0x4_0000 + (b[1] - 0x80) * 0x1000 + (b[2] - 0x80) * 0x40 + (b[3] - 0x80))
  }

  /** What is written for a code point is the one form the standard allows for it. */
  lemma UniqueForm(b: seq<nat>, c: nat)
    requires c <= 0x10FFFF
    ensures IsForm(b, c) <==> b == Utf8Char(c)
  {
    FormOf(c);
    if IsForm(b, c) {
      if |b| == 2 {
        assert c / 0x40 == b[0] - 0xC0;
      } else if |b| == 3 {
        ThreeBytes(b, c);
      } else if |b| == 4 {
        FourBytes(b, c);
      }
    }
  }

  /** A number that is no code point is written as U+FFFD. */
  lemma ReplacementForm(c: nat)
    requires c > 0x10FFFF
    ensures Utf8Char(c) == Utf8Char(0xFFFD)
  {
  }

  lemma FormOf(c: nat)
    requires c <= 0x10FFFF
    ensures IsForm(Utf8Char(c), c)
  {
    if c > 0xFFFF {
      FormOfFour(c);
    } else if c > 0x7FF {
      Digits(c);
      Digits(c / 0x40);
    }
  }

  lemma FormOfFour(c: nat)
    requires 0xFFFF < c <= 0x10FFFF
    ensures IsForm(Utf8Char(c), c)
  {
    Digits(c);
    Digits(c / 0x40);
    Digits(c / 0x1000);
    var w, x, y, z := c / 0x4_0000, c / 0x1000 % 0x40, c / 0x40 % 0x40, c % 0x40;
    assert w < 8;
    assert Utf8Char(c) == [0xF0 + w, 0x80 + x, 0x80 + y, 0x80 + z];
    assert c == w * 0x4_0000 + x * 0x1000 + y * 0x40 + z;
  }

  /** Six bits at a time. */
  lemma Digits(x: nat)
    ensures x == x / 0x40 * 0x40 + x % 0x40 && x / 0x40 / 0x40 == x / 0x1000 && x / 0x1000 / 0x40 == x / 0x4_0000
  {
  }

  lemma ThreeBytes(b: seq<nat>, c: nat)
    requires |b| == 3 && IsForm(b, c) && c <= 0x10FFFF
    ensures b == Utf8Char(c)
  {
    assert c / 0x40 == (b[0] - 0xE0) * 0x40 + (b[1] - 0x80);
    assert c / 0x1000 == b[0] - 0xE0;
  }

  lemma FourDigits(a: nat, b: nat, d: nat, e: nat, c: nat)
    requires a < 8 && b < 0x40 && d < 0x40 && e < 0x40 && c == a * 0x4_0000 + b * 0x1000 + d * 0x40 + e
    ensures c / 0x4_0000 % 8 == a && c / 0x1000 % 0x40 == b && c / 0x40 % 0x40 == d && c % 0x40 == e
  {
    assert c / 0x40 == a * 0x1000 + b * 0x40 + d && c / 0x1000 == a * 0x40 + b && c / 0x4_0000 == a;
  }

  lemma FourBytes(b: seq<nat>, c: nat)
    requires |b| == 4 && IsForm(b, c) && c <= 0x10FFFF
    ensures b == Utf8Char(c)
  {
    FourDigits(b[0] - 0xF0, b[1] - 0x80, b[2] - 0x80, b[3] - 0x80, c);
  }

  /** The first byte of a form tells its length, and the form its code point. */
  lemma FormsDiffer(a: seq<nat>, c: nat, b: seq<nat>, d: nat)
    requires IsForm(a, c) && IsForm(b, d) && a[0] == b[0]
    ensures |a| == |b| && (a == b ==> c == d)
  {
  }

  /** UTF-8 text says which characters it is. */
  lemma {:induction false} Utf8Injective(cs: seq<nat>, ds: seq<nat>)
    requires Utf8(cs) == Utf8(ds)
    requires (forall c :: c in cs ==> Scalar(c)) && (forall d :: d in ds ==> Scalar(d))
    ensures cs == ds
    decreases |cs|
  {
    if cs != [] && ds != [] {
      assert cs[0] in cs && ds[0] in ds;
      assert (forall c :: c in cs[1..] ==> c in cs) && (forall d :: d in ds[1..] ==> d in ds);
      hide Utf8Char, IsForm;
      var a, b := Utf8Char(cs[0]), Utf8Char(ds[0]);
      FormOf(cs[0]);
      FormOf(ds[0]);
      assert Utf8(cs)[0] == a[0] && Utf8(ds)[0] == b[0];
      FormsDiffer(a, cs[0], b, ds[0]);
      assert Utf8(cs)[..|a|] == a && Utf8(ds)[..|a|] == b;
      assert Utf8(cs)[|a|..] == Utf8(cs[1..]) && Utf8(ds)[|a|..] == Utf8(ds[1..]);
      Utf8Injective(cs[1..], ds[1..]);
      assert cs == [cs[0]] + cs[1..] && ds == [ds[0]] + ds[1..];
    }
  }

  /** The transcoder as a function of its input. */
  function Transcoded(u: seq<nat>): seq<nat> {
    Utf8(DecodeAll(u, 0))
  }

  /** Well-formed UTF-16: the encoding of some sequence of characters. */
  ghost predicate WellFormed(u: seq<nat>, cs: seq<nat>) {
    u == Utf16(cs) && forall c :: c in cs ==> Scalar(c)
  }

  /** On well-formed input the transcoder keeps the characters, so it takes different texts to different texts. */
  lemma TranscodingKeepsMeaning(u: seq<nat>, cs: seq<nat>, v: seq<nat>, ds: seq<nat>)
    requires WellFormed(u, cs) && WellFormed(v, ds)
    ensures Transcoded(u) == Utf8(cs)
    ensures Transcoded(u) == Transcoded(v) <==> u == v
  {
    RoundTripIff(cs);
    RoundTripIff(ds);
    if Transcoded(u) == Transcoded(v) {
      Utf8Injective(cs, ds);
    }
  }
}

/** The code: loops over the input, appending to the output. */
module Unicode {
  import opened Forms

  method Utf16DecodeChar(u: seq<nat>, begin: nat) returns (ch: nat, pos: nat)
    requires begin <= |u|
    ensures Decoded(ch, pos) == Decode(u, begin, 0)
  {
    var next := 0;
    pos := begin;
    while pos < |u|
      invariant begin <= pos <= |u| && Decode(u, begin, 0) == Decode(u, pos, next)
    {
      var c := u[pos];
      if c < 0xD800 || c > 0xDFFF {
        return c, pos + 1;
      } else if c >= 0xDC00 {
        return next * 0x400 + c % 0x400 + 0x1_0000, pos + 1;
      }
      next, pos := c % 0x400, pos + 1;
    }
    ch := 0;
  }

  method Utf16Encode(cs: seq<nat>) returns (out: seq<nat>)
    ensures out == Utf16(cs)
  {
    out := [];
    for i := 0 to |cs|
      invariant out + Utf16(cs[i..]) == Utf16(cs)
    {
      out := out + Utf16Char(cs[i]);
      assert cs[i..][1..] == cs[i + 1..];
    }
  }

  method Utf16ToUtf8(u: seq<nat>) returns (out: seq<nat>)
    ensures out == Transcoded(u)
  {
    out := [];
    var it := 0;
    while it < |u|
      invariant it <= |u| && out + Utf8(DecodeAll(u, it)) == Transcoded(u)
    {
      var ch, pos := Utf16DecodeChar(u, it);
      ghost var rest := DecodeAll(u, it);
      assert rest[0] == ch && rest[1..] == DecodeAll(u, pos);
      out := out + Utf8Char(ch);
      it := pos;
    }
  }
}
