/** The packed 38-byte big-endian value of a stored record. */
module Layout {
  import opened Bytes

  const MARK: byte := 0x44 // 'D'
  const SIZE: nat := 38

  datatype Layout = Layout(
    d: byte, step: byte,
    count: int, sum: int, avg: int,
    min: int, max: int, p10: int, p50: int, p90: int)
  {
    /** Every field fits the integer type it is declared with. */
    predicate Valid() {
      && Signed(8, sum)
      && Signed(4, count) && Signed(4, avg) && Signed(4, min) && Signed(4, max)
      && Signed(4, p10) && Signed(4, p50) && Signed(4, p90)
    }
  }

  function Encode(l: Layout): (s: bytes)
    requires l.Valid()
    ensures |s| == SIZE && s[0] == l.d
  {
    [l.d, l.step] + ToSBE(4, l.count) + ToSBE(8, l.sum) + ToSBE(4, l.avg)
    + ToSBE(4, l.min) + ToSBE(4, l.max) + ToSBE(4, l.p10) + ToSBE(4, l.p50) + ToSBE(4, l.p90)
  }

  function Decode(s: bytes): (l: Layout)
    requires |s| == SIZE
    ensures l.Valid()
  {
    Layout(s[0], s[1],
           FromSBE(s[2..6]), FromSBE(s[6..14]), FromSBE(s[14..18]),
           FromSBE(s[18..22]), FromSBE(s[22..26]), FromSBE(s[26..30]), FromSBE(s[30..34]), FromSBE(s[34..38]))
  }

  /** Reading back a written value recovers every field, signs included. */
  lemma DecodeEncode(l: Layout)
    requires l.Valid()
    ensures Decode(Encode(l)) == l
  {
    var s := Encode(l);
    hide ToSBE; hide FromSBE; hide Pow256;
    assert s[2..6] == ToSBE(4, l.count) && s[6..14] == ToSBE(8, l.sum) && s[14..18] == ToSBE(4, l.avg);
    assert s[18..22] == ToSBE(4, l.min) && s[22..26] == ToSBE(4, l.max);
    assert s[26..30] == ToSBE(4, l.p10) && s[30..34] == ToSBE(4, l.p50);
    assert s[34..] == ToSBE(4, l.p90) && s[34..38] == s[34..];
    FromToSBE(4, l.count);
    FromToSBE(8, l.sum);
    FromToSBE(4, l.avg);
    FromToSBE(4, l.min);
    FromToSBE(4, l.max);
    FromToSBE(4, l.p10);
    FromToSBE(4, l.p50);
    FromToSBE(4, l.p90);
  }

  /** Every 38-byte string is the encoding of what it decodes to. */
  lemma EncodeDecode(s: bytes)
    requires |s| == SIZE
    ensures Encode(Decode(s)) == s
  {
    hide ToSBE; hide FromSBE; hide Pow256;
    Slices(s);
    ToFromSBE(s[2..6]);
    ToFromSBE(s[6..14]);
    ToFromSBE(s[14..18]);
    ToFromSBE(s[18..22]);
    ToFromSBE(s[22..26]);
    ToFromSBE(s[26..30]);
    ToFromSBE(s[30..34]);
    ToFromSBE(s[34..38]);
  }

  lemma Slices(s: bytes)
    requires |s| == SIZE
    ensures s == [s[0], s[1]] + s[2..6] + s[6..14] + s[14..18] + s[18..22] + s[22..26] + s[26..30] + s[30..34] + s[34..38]
  {
    assert s[..14] == [s[0], s[1]] + s[2..6] + s[6..14];
    assert s[..22] == s[..14] + s[14..18] + s[18..22];
    assert s[..30] == s[..22] + s[22..26] + s[26..30];
    assert s == s[..30] + s[30..34] + s[34..38];
  }

  /** Where each field lies in the packed value: big endian, with a sign, in the order of the
      declaration. */
  lemma FieldsAt(s: bytes)
    requires |s| == SIZE
    ensures var l := Decode(s);
      && l.d == s[0] && l.step == s[1]
      && l.count == Wrap32(Be32(s, 2)) && l.sum == Wrap64(Be64(s, 6)) && l.avg == Wrap32(Be32(s, 14))
      && l.min == Wrap32(Be32(s, 18)) && l.max == Wrap32(Be32(s, 22))
      && l.p10 == Wrap32(Be32(s, 26)) && l.p50 == Wrap32(Be32(s, 30)) && l.p90 == Wrap32(Be32(s, 34))
  {
    hide FromSBE; hide Wrap32; hide Wrap64; hide Be32; hide Be64;
    FromSBEWords(s, 2);
    FromSBEWords(s, 6);
    FromSBEWords(s, 14);
    FromSBEWords(s, 18);
    FromSBEWords(s, 22);
    FromSBEWords(s, 26);
    FromSBEWords(s, 30);
    FromSBEWords(s, 34);
  }
}
