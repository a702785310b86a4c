/** Bytes, big-endian 32-bit words, and the verdict that the file validators share. */
module Bytes {

  type Byte = b: int | 0 <= b < 256

  const TWO32: nat := 0x1_0000_0000
  const TWO64: nat := 0x1_0000_0000_0000_0000

  type Word = w: int | 0 <= w < TWO32

  datatype Verdict = Invalid | Promising | Validates

  /** A verdict and, where the validator writes it, the number of bytes it accounts for. */
  datatype Parse = Unparsed | Parsed(verdict: Verdict, size: nat)

  /** The codes of a text's characters. */
  function Ascii(text: string): (s: seq<Byte>)
    requires forall i :: 0 <= i < |text| ==> text[i] < 256 as char
    ensures |s| == |text| && forall i :: 0 <= i < |text| ==> s[i] == text[i] as int
  {
    seq(|text|, i requires 0 <= i < |text| => text[i] as int)
  }

  /** Four bytes, most significant first. */
  function FromBytes(a: Byte, b: Byte, c: Byte, d: Byte): Word {
    a * 0x100_0000 + b * 0x1_0000 + c * 0x100 + d
  }

  function ToBytes(w: Word): (s: seq<Byte>)
    ensures |s| == 4
  {
    [w / 0x100_0000, w / 0x1_0000 % 0x100, w / 0x100 % 0x100, w % 0x100]
  }

  lemma {:induction false} WordRoundTrip(w: Word)
    ensures var s := ToBytes(w); FromBytes(s[0], s[1], s[2], s[3]) == w
  {
    assert w / 0x1_0000 == w / 0x100 / 0x100 && w / 0x100_0000 == w / 0x1_0000 / 0x100;
  }

  /** The quotient and remainder of a shifted number and a byte. */
  lemma {:induction false} Shifted(high: nat, low: Byte)
    ensures (high * 0x100 + low) / 0x100 == high && (high * 0x100 + low) % 0x100 == low
  {
  }

  lemma {:induction false} BytesRoundTrip(a: Byte, b: Byte, c: Byte, d: Byte)
    ensures ToBytes(FromBytes(a, b, c, d)) == [a, b, c, d]
  {
    var ab := a * 0x100 + b;
    var abc := ab * 0x100 + c;
    var w := abc * 0x100 + d;
    assert FromBytes(a, b, c, d) == w;
    Shifted(a, b);
    Shifted(ab, c);
    Shifted(abc, d);
    assert w / 0x1_0000 == w / 0x100 / 0x100 && w / 0x100_0000 == w / 0x1_0000 / 0x100;
  }

  /** `part` lies in `whole` at `offset`. */
  ghost predicate At<T>(whole: seq<T>, offset: nat, part: seq<T>) {
    offset + |part| <= |whole| && whole[offset..offset + |part|] == part
  }

  /** A concatenation lies at an offset exactly when its parts lie one after the other. */
  lemma {:induction false} AtConcat<T>(whole: seq<T>, offset: nat, a: seq<T>, b: seq<T>)
    ensures At(whole, offset, a + b) <==> At(whole, offset, a) && At(whole, offset + |a|, b)
  {
    if offset + |a| + |b| <= |whole| {
      var w := whole[offset..offset + |a| + |b|];
      assert w == whole[offset..offset + |a|] + whole[offset + |a|..offset + |a| + |b|];
      assert w[..|a|] == whole[offset..offset + |a|];
      assert w[|a|..] == whole[offset + |a|..offset + |a| + |b|];
      assert (a + b)[..|a|] == a && (a + b)[|a|..] == b;
    }
  }

  /** Each element of what lies at an offset is there. */
  lemma {:induction false} AtByte<T>(whole: seq<T>, offset: nat, part: seq<T>, i: nat)
    requires At(whole, offset, part) && i < |part|
    ensures offset + i < |whole| && whole[offset + i] == part[i]
  {
    assert whole[offset..offset + |part|][i] == part[i];
  }

  /** What is read at an offset lies there. */
  lemma {:induction false} AtSlice<T>(whole: seq<T>, offset: nat, n: nat)
    requires offset + n <= |whole|
    ensures At(whole, offset, whole[offset..offset + n])
  {
  }

  lemma {:induction false} AtOne<T>(whole: seq<T>, offset: nat)
    requires offset < |whole|
    ensures At(whole, offset, [whole[offset]])
  {
    assert whole[offset..offset + 1] == [whole[offset]];
  }

  lemma {:induction false} AtAppend<T>(before: seq<T>, part: seq<T>, after: seq<T>)
    ensures At(before + part + after, |before|, part)
  {
  }
}
