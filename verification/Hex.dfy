/** Hexadecimal text of bytes: lowercase when written, either case when read. */
module Hex {
  import opened Common
  import opened Json

  function HexEncode(bs: seq<byte>): string {
    if |bs| == 0 then [] else [HexChar(bs[0] / 16), HexChar(bs[0] % 16)] + HexEncode(bs[1..])
  }

  function HexDecode(s: string): (r: Option<seq<byte>>)
    ensures r.Some? ==> |s| == 2 * |r.value|
    ensures r.Some? ==> forall i :: 0 <= i < |s| ==> HexValue(s[i]).Some?
  {
    if |s| == 0 then Some([])
    else if |s| == 1 || HexValue(s[0]).None? || HexValue(s[1]).None? then None
    else
      var rest := HexDecode(s[2..]);
      if rest.None? then None else Some([16 * HexValue(s[0]).value + HexValue(s[1]).value] + rest.value)
  }

  /** The high half of a byte comes first. */
  lemma KnownHex()
    ensures HexEncode([1, 171]) == "01ab"
  {
    assert [1, 171][1..] == [171] && [171][1..] == [];
    assert HexEncode([171]) == "ab";
  }

  lemma NibbleIff(c: char, v: nat)
    requires v < 16
    ensures LowerChar(c) == HexChar(v) <==> HexValue(c) == Some(v)
  {}

  /** A text decodes to some bytes exactly when its lowercase form is their encoding. */
  lemma {:induction false} HexDecodesIff(s: string, bs: seq<byte>)
    ensures HexDecode(s) == Some(bs) <==> Lower(s) == HexEncode(bs)
    decreases |s|
  {
    hide HexValue, LowerChar;
    if |s| >= 2 && |bs| > 0 {
      HexDecodesIff(s[2..], bs[1..]);
      NibbleIff(s[0], bs[0] / 16);
      NibbleIff(s[1], bs[0] % 16);
      assert Lower(s) == [LowerChar(s[0]), LowerChar(s[1])] + Lower(s[2..]);
      assert Lower(s)[2..] == Lower(s[2..]) && HexEncode(bs)[2..] == HexEncode(bs[1..]);
      assert bs == [bs[0]] + bs[1..];
      var rest := HexDecode(s[2..]);
      if HexDecode(s) == Some(bs) {
        assert rest.value == bs[1..];
      }
      if Lower(s) == HexEncode(bs) {
        assert Lower(s)[0] == HexEncode(bs)[0] && Lower(s)[1] == HexEncode(bs)[1];
      }
    }
  }

  lemma {:induction false} HexIsLowercase(bs: seq<byte>)
    ensures Lower(HexEncode(bs)) == HexEncode(bs)
    decreases |bs|
  {
    if |bs| > 0 {
      HexIsLowercase(bs[1..]);
      var s := HexEncode(bs);
      assert s[2..] == HexEncode(bs[1..]);
      forall i | 0 <= i < |s| ensures LowerChar(s[i]) == s[i] {
        if i >= 2 { assert s[i] == s[2..][i - 2] == Lower(s[2..])[i - 2]; }
      }
    }
  }
}
