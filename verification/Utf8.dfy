/** UTF-8 as section 4 of RFC 3629 defines it, and what cutting it does. */
module Utf8 {

  type Byte = b: int | 0 <= b < 0x100

  /** utf8.RuneStart: not a continuation byte. */
  predicate RuneStart(b: Byte)
  {
    !IsTail(b)
  }

  predicate IsTail(b: Byte)
  {
    0x80 <= b <= 0xBF
  }

  /** The length of the sequence that the byte starts, or 0 if it starts none. */
  function Width(b: Byte): (w: nat)
    ensures w <= 4
  {
    if b <= 0x7F then 1
    else if 0xC2 <= b <= 0xDF then 2
    else if 0xE0 <= b <= 0xEF then 3
    else if 0xF0 <= b <= 0xF4 then 4
    else 0
  }

  /** UTF8-1, UTF8-2, UTF8-3 or UTF8-4. */
  predicate IsRune(s: seq<Byte>)
  {
    && s != [] && Width(s[0]) == |s|
    && (forall i :: 1 <= i < |s| ==> IsTail(s[i]))
    && (s[0] == 0xE0 ==> s[1] >= 0xA0)
    && (s[0] == 0xED ==> s[1] <= 0x9F)
    && (s[0] == 0xF0 ==> s[1] >= 0x90)
    && (s[0] == 0xF4 ==> s[1] <= 0x8F)
  }

  predicate Valid(s: seq<Byte>)
  {
    s == []
    || (0 < Width(s[0]) <= |s| && IsRune(s[..Width(s[0])]) && Valid(s[Width(s[0])..]))
  }

  lemma {:induction false} SplitConcat(a: seq<Byte>, b: seq<Byte>, w: nat)
    requires w <= |a|
    ensures (a + b)[..w] == a[..w] && (a + b)[w..] == a[w..] + b
  {
  }

  lemma {:induction false} ValidConcat(a: seq<Byte>, b: seq<Byte>)
    requires Valid(a) && Valid(b)
    ensures Valid(a + b)
  {
    if a == [] {
      assert a + b == b;
    } else {
      var w := Width(a[0]);
      ValidConcat(a[w..], b);
      SplitConcat(a, b, w);
    }
  }

  /** Valid text cut where a rune starts is valid. */
  lemma {:induction false} CutIsValid(s: seq<Byte>, end: nat)
    requires Valid(s) && end < |s| && RuneStart(s[end])
    ensures Valid(s[..end])
  {
    if end > 0 {
      var w := Width(s[0]);
      assert forall i :: 1 <= i < w ==> s[..w][i] == s[i];
      if end == w {
        ValidRune(s[..end]);
      } else {
        CutIsValid(s[w..], end - w);
        assert s[w..][..end - w] == s[..end][w..];
        assert s[..end][..w] == s[..w];
      }
    }
  }

  lemma {:induction false} ValidRune(s: seq<Byte>)
    requires IsRune(s)
    ensures Valid(s)
  {
    assert s[..|s|] == s && s[|s|..] == [];
  }

  /** In valid text, some rune starts at any index or at most three bytes before. */
  lemma {:induction false} StartIsNear(s: seq<Byte>, k: nat) returns (e: nat)
    requires Valid(s) && k < |s|
    ensures k - 3 <= e <= k && RuneStart(s[e])
    ensures forall i :: e < i <= k ==> IsTail(s[i])
  {
    var w := Width(s[0]);
    if k < w {
      e := 0;
      assert forall i :: 0 < i <= k ==> s[i] == s[..w][i];
    } else {
      e := StartIsNear(s[w..], k - w);
      e := e + w;
      assert forall i :: w <= i <= k ==> s[i] == s[w..][i - w];
    }
  }

  // ----- Valid text is encoded text

  /** A Unicode scalar value: no surrogate. */
  predicate Scalar(c: int)
  {
    0 <= c < 0xD800 || 0xE000 <= c < 0x11_0000
  }

  /** Its encoding, as the table of section 3 of RFC 3629 distributes its bits. */
  function Encode(c: int): (r: seq<Byte>)
    requires Scalar(c)
  {
    if c < 0x80 then [c]
    else if c < 0x800 then [0xC0 + c / 0x40, 0x80 + c % 0x40]
    else if c < 0x1_0000 then [0xE0 + c / 0x40 / 0x40, 0x80 + c / 0x40 % 0x40, 0x80 + c % 0x40]
    else [0xF0 + c / 0x40 / 0x40 / 0x40, 0x80 + c / 0x40 / 0x40 % 0x40, 0x80 + c / 0x40 % 0x40, 0x80 + c % 0x40]
  }

  /** One more continuation byte. */
  function More(c: int, b: int): int
  {
    c * 0x40 + (b - 0x80)
  }

  lemma {:induction false} MoreSplits(c: int, b: int)
    requires 0x80 <= b <= 0xBF
    ensures More(c, b) / 0x40 == c && 0x80 + More(c, b) % 0x40 == b
  {
  }

  lemma {:induction false} FourScalar(a: int, b: int, x: int, y: int)
    requires 0 <= a <= 4 && 0x80 <= b <= 0xBF && 0x80 <= x <= 0xBF && 0x80 <= y <= 0xBF
    requires (a == 0 ==> b >= 0x90) && (a == 4 ==> b <= 0x8F)
    ensures 0x1_0000 <= More(More(More(a, b), x), y) < 0x11_0000
  {
    assert 0x10 <= More(a, b) <= 0x10F;
    assert 0x400 <= More(More(a, b), x) <= 0x43FF;
  }

  lemma {:induction false} FourEncode(a: int, b: int, x: int, y: int)
    requires 0 <= a <= 4 && 0x80 <= b <= 0xBF && 0x80 <= x <= 0xBF && 0x80 <= y <= 0xBF
    requires (a == 0 ==> b >= 0x90) && (a == 4 ==> b <= 0x8F)
    ensures Scalar(More(More(More(a, b), x), y)) && Encode(More(More(More(a, b), x), y)) == [0xF0 + a, b, x, y]
  {
    FourScalar(a, b, x, y);
    MoreSplits(a, b);
    MoreSplits(More(a, b), x);
    MoreSplits(More(More(a, b), x), y);
  }

  lemma {:induction false} ThreeEncode(a: int, b: int, x: int)
    requires 0 <= a <= 15 && 0x80 <= b <= 0xBF && 0x80 <= x <= 0xBF
    requires (a == 0 ==> b >= 0xA0) && (a == 13 ==> b <= 0x9F)
    ensures Scalar(More(More(a, b), x)) && Encode(More(More(a, b), x)) == [0xE0 + a, b, x]
  {
    MoreSplits(a, b);
    MoreSplits(More(a, b), x);
  }

  lemma {:induction false} TwoEncode(a: int, b: int)
    requires 2 <= a <= 31 && 0x80 <= b <= 0xBF
    ensures Scalar(More(a, b)) && Encode(More(a, b)) == [0xC0 + a, b]
  {
    MoreSplits(a, b);
  }

  /** Every rune encodes a scalar value. */
  lemma {:induction false} RuneEncodes(s: seq<Byte>) returns (c: int)
    requires IsRune(s)
    ensures Scalar(c) && Encode(c) == s
  {
    assert |s| > 1 ==> IsTail(s[1]);
    assert |s| > 2 ==> IsTail(s[2]);
    assert |s| > 3 ==> IsTail(s[3]);
    if |s| == 1 {
      c := s[0];
    } else if |s| == 2 {
      c := More(s[0] - 0xC0, s[1]);
      TwoEncode(s[0] - 0xC0, s[1]);
    } else if |s| == 3 {
      c := More(More(s[0] - 0xE0, s[1]), s[2]);
      ThreeEncode(s[0] - 0xE0, s[1], s[2]);
    } else {
      c := More(More(More(s[0] - 0xF0, s[1]), s[2]), s[3]);
      FourEncode(s[0] - 0xF0, s[1], s[2], s[3]);
    }
  }

  lemma {:induction false} EncodingIsRune(c: int)
    requires Scalar(c)
    ensures IsRune(Encode(c))
  {
    assert More(c / 0x40, 0x80 + c % 0x40) == c;
    assert More(c / 0x40 / 0x40, 0x80 + c / 0x40 % 0x40) == c / 0x40;
    assert More(c / 0x40 / 0x40 / 0x40, 0x80 + c / 0x40 / 0x40 % 0x40) == c / 0x40 / 0x40;
  }

  function EncodeAll(cs: seq<int>): seq<Byte>
    requires forall c <- cs :: Scalar(c)
  {
    if cs == [] then [] else Encode(cs[0]) + EncodeAll(cs[1..])
  }

  ghost predicate EncodedAs(s: seq<Byte>, cs: seq<int>)
  {
    (forall c <- cs :: Scalar(c)) && EncodeAll(cs) == s
  }

  lemma {:induction false} ValidIsEncoded(s: seq<Byte>) returns (cs: seq<int>)
    requires Valid(s)
    ensures EncodedAs(s, cs)
  {
    if s == [] {
      cs := [];
    } else {
      var w := Width(s[0]);
      var rest := ValidIsEncoded(s[w..]);
      var c := RuneEncodes(s[..w]);
      cs := [c] + rest;
      assert cs[1..] == rest && s == s[..w] + s[w..];
    }
  }

  lemma {:induction false} EncodedIsValid(cs: seq<int>)
    requires forall c <- cs :: Scalar(c)
    ensures Valid(EncodeAll(cs))
  {
    if cs != [] {
      EncodingIsRune(cs[0]);
      EncodedIsValid(cs[1..]);
      ValidRune(Encode(cs[0]));
      ValidConcat(Encode(cs[0]), EncodeAll(cs[1..]));
    }
  }

  /** Text is valid exactly if it encodes some scalar values. */
  lemma {:induction false} ValidExactly(s: seq<Byte>)
    ensures Valid(s) <==> exists cs :: EncodedAs(s, cs)
  {
    if Valid(s) {
      var cs := ValidIsEncoded(s);
    }
    if cs :| EncodedAs(s, cs) {
      EncodedIsValid(cs);
    }
  }
}
