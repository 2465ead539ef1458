/** The CVA1 codec as a whole: what a writer accepts, a reader gives back. */
module ValueCodec {
  import opened Options
  import opened Bytes
  import opened ValueTree
  import opened EntryOrder
  import opened JsValues
  import opened ValueGrammar
  import opened ValueInverse
  import opened ValueReader
  import opened ValueWriter
  import Acceptance
  import Denotation

  /**
   * Every frame the writer makes is read back, by the two-pass reader, as the value that the input
   * stands for: undefined properties dropped, holes null, keys sorted, shared parts repeated. Only a
   * pending sentinel that the host does not allow is refused.
   */
  method RoundTrip(world: World, input: JsValue, host: Host) returns (frame: Option<seq<byte>>, value: Option<Tree>)
    requires host.guarded
    ensures var t := Unfold(world, input, [], false);
            if t.None? || 4 + |Encode(t.value)| > MAX_FRAME_BYTES then frame.None? && value.None?
            else frame.Some? && value == if HasPending(t.value) && !host.pendingAllowed then None else t
    ensures frame.Some? ==> Acceptance.AllFine(world, 0, input)
    ensures value.Some? ==> Denotation.Denotes(world, value.value, input)
  {
    hide Unfold, Denotation.Denotes, Acceptance.AllFine;
    var writer := new ValueAbiWriter(world);
    frame := writer.EncodeFrame(input);
    assert Descent(world, [] + [input]);
    CheckIsRedundant(world, input, []);
    if frame.None? {
      return None, None;
    }
    var reader := new ValueAbiReader(frame.value, host);
    value := reader.Decode();
    FrameRoundTrip(world, input, host);
    Acceptance.AcceptedIffFine(world, input);
    Denotation.UnfoldDenotes(world, input, [], true);
  }

  lemma FrameRoundTrip(w: World, v: JsValue, h: Host)
    requires Unfold(w, v, [], true).Some?
    requires 4 + |Encode(Unfold(w, v, [], true).value)| <= MAX_FRAME_BYTES
    ensures var t := Unfold(w, v, [], true).value;
            ParseFrame(h, MAGIC + Encode(t)) == if HasPending(t) && !h.pendingAllowed then None else Some(t)
  {
    UnfoldFits(w, v, [], true);
    FrameInverts(h, Unfold(w, v, [], true).value);
  }

  /** Different values have different frames. */
  lemma EncodeIsInjective(t: Tree, t': Tree)
    requires Fits(t, 0) && Fits(t', 0) && |Encode(t)| < TWO_TO_THE_32
    requires Encode(t) == Encode(t')
    ensures t == t'
  {
    var h := Host(true, (d, n) => None, true);
    FrameInverts(h, t);
    FrameInverts(h, t');
  }

  /** The frame of a value does not depend on the order in which properties are enumerated. */
  lemma FrameIgnoresOrder(w: World, w': World, v: JsValue)
    requires SameUpToOrder(w, w')
    ensures EncodeOption(Unfold(w, v, [], true)) == EncodeOption(Unfold(w', v, [], true))
  {
    OrderIsIrrelevant(w, w', v, [], true);
  }

  lemma SmallLengths()
    ensures U32(1) == [1, 0, 0, 0] && U32(2) == [2, 0, 0, 0]
  {
  }

  lemma SmallWords()
    ensures U64(0x400C_0000_0000_0000) == [0, 0, 0, 0, 0, 0, 0x0C, 0x40]
    ensures U64(0xFFFF_FFFF_FFFF_FFFE) == [0xFE, 0xFF, 0xFF, 0xFF, 0xFF, 0xFF, 0xFF, 0xFF]
  {
    assert 0x400C_0000_0000_0000 / TWO_TO_THE_32 == 0x400C_0000;
    assert U32(0x400C_0000) == [0, 0, 0x0C, 0x40];
    assert 0xFFFF_FFFF_FFFF_FFFE / TWO_TO_THE_32 == 0xFFFF_FFFF;
    assert U32(0xFFFF_FFFF) == [0xFF, 0xFF, 0xFF, 0xFF];
  }

  /** Each tag of the wire on a small value, byte for byte. */
  lemma WireForm()
    ensures Encode(Null) == [0] && Encode(Bool(false)) == [1] && Encode(Bool(true)) == [2] && Encode(Pending) == [9]
    ensures Encode(Number(0x400C_0000_0000_0000)) == [3, 0, 0, 0, 0, 0, 0, 0x0C, 0x40]
    ensures Encode(Integer(-2)) == [4, 0xFE, 0xFF, 0xFF, 0xFF, 0xFF, 0xFF, 0xFF, 0xFF]
    ensures Encode(Text([0x68, 0x69])) == [5, 2, 0, 0, 0, 0x68, 0x69]
    ensures Encode(Buffer([7])) == [6, 1, 0, 0, 0, 7]
  {
    hide U32, U64;
    SmallWords();
    SmallLengths();
  }

  lemma WireFormOfContainers()
    ensures Encode(Array([Null, Bool(true)])) == [7, 2, 0, 0, 0, 0, 2]
    ensures Encode(Object([Field([0x61], Null)])) == [8, 1, 0, 0, 0, 1, 0, 0, 0, 0x61, 0]
  {
    hide U32, U64;
    SmallLengths();
    var items, fields := [Null, Bool(true)], [Field([0x61], Null)];
    assert items[1..] == [Bool(true)] && items[1..][1..] == [];
    assert EncodeItems(items[1..][1..]) == [];
    assert EncodeItems(items[1..]) == [2];
    assert EncodeItems(items) == [0, 2];
    assert fields[1..] == [] && EncodeFields(fields[1..]) == [];
    assert EncodeField(fields[0]) == [1, 0, 0, 0, 0x61, 0];
    assert EncodeFields(fields) == [1, 0, 0, 0, 0x61, 0];
  }
}
