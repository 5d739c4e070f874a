/**
 * A CAN message of the database and the per-message work of the generator
 * that does not emit code: the frame-length warning (msg_dlc_check), the
 * byte-order flags msg2c collects, and the two sorts dbc2c performs before
 * anything is emitted (messages by identifier, each message's signals by
 * decreasing length).
 */
module Messages {
  import Word
  import opened Signals
  import opened Sorting
  import opened Multiplex

  datatype Message = Message(name: string, id: u32, dlc: u32, sigs: seq<Signal>)

  // ---------------------------------------------------------------------------
  // msg_dlc_check

  /** The total bit length of a list of signals, summed in list order. */
  function SumLengths(sigs: seq<Signal>): nat
  {
    if sigs == [] then 0 else SumLengths(sigs[..|sigs| - 1]) + sigs[|sigs| - 1].bitLength
  }

  /**
   * The outcome of msg_dlc_check: it returns 0 or -1 (a warning only), or
   * stops the generator when find_multiplexor meets a second multiplexor.
   */
  datatype DlcCheck = DlcFits | DlcTooLow | DlcFatal

  /**
   * msg_dlc_check: a message with a multiplexor is skipped; otherwise the sum
   * of the signal lengths, accumulated in an `unsigned`, is compared with
   * `dlc * 8`, also an `unsigned`.  Both wrap modulo 2^32.
   */
  method MsgDlcCheck(msg: Message) returns (r: DlcCheck)
    ensures r == DlcFatal <==> TwoMultiplexors(msg.sigs)
    ensures r == DlcTooLow <==>
              (forall j :: 0 <= j < |msg.sigs| ==> !msg.sigs[j].isMultiplexor)
              && Wrap32(SumLengths(msg.sigs)) > Wrap32(msg.dlc * 8)
  {
    var bits := Wrap32(msg.dlc * 8);
    var used: u32 := 0;
    var multiplexor := FindMultiplexor(msg.sigs);
    if multiplexor.Multiple? {
      return DlcFatal;
    }
    if multiplexor.Found? {
      return DlcFits;
    }
    var i := 0;
    while i < |msg.sigs|
      invariant 0 <= i <= |msg.sigs|
      invariant used == Wrap32(SumLengths(msg.sigs[..i]))
    {
      assert msg.sigs[..i + 1][..i] == msg.sigs[..i];
      WrapAdd(SumLengths(msg.sigs[..i]), msg.sigs[i].bitLength);
      used := Wrap32(used + msg.sigs[i].bitLength);
      i := i + 1;
    }
    assert msg.sigs[..i] == msg.sigs;
    r := if used > bits then DlcTooLow else DlcFits;
  }

  /** Adding to a wrapped sum and wrapping again is wrapping the exact sum. */
  lemma WrapAdd(a: nat, b: nat)
    ensures Wrap32(Wrap32(a) + b) == Wrap32(a + b)
  {
    var q := a / UINT_RANGE;
    assert a == q * UINT_RANGE + Wrap32(a);
    var t := Wrap32(a) + b;
    assert a + b == q * UINT_RANGE + t;
    assert (a + b) % UINT_RANGE == t % UINT_RANGE by {
      ModShift(t, q);
    }
  }

  lemma ModShift(t: nat, q: nat)
    ensures (q * UINT_RANGE + t) % UINT_RANGE == t % UINT_RANGE
  {
    var r := t % UINT_RANGE;
    assert t == (t / UINT_RANGE) * UINT_RANGE + r;
    assert q * UINT_RANGE + t == (q + t / UINT_RANGE) * UINT_RANGE + r;
    Word.DivModUnique(q * UINT_RANGE + t, UINT_RANGE, q + t / UINT_RANGE, r);
  }

  /**
   * For a frame of at most 8 bytes and lengths whose sum does not wrap, the
   * warning is given exactly when a message without a multiplexor has more
   * signal bits than its frame.
   */
  lemma DlcCheckExact(msg: Message)
    requires msg.dlc <= 8 && SumLengths(msg.sigs) < UINT_RANGE
    ensures (forall j :: 0 <= j < |msg.sigs| ==> !msg.sigs[j].isMultiplexor)
              && Wrap32(SumLengths(msg.sigs)) > Wrap32(msg.dlc * 8)
            <==>
            (forall j :: 0 <= j < |msg.sigs| ==> !msg.sigs[j].isMultiplexor)
              && SumLengths(msg.sigs) > 8 * msg.dlc
  {
    SmallWrap(SumLengths(msg.sigs));
    SmallWrap(msg.dlc * 8);
  }

  lemma SmallWrap(x: nat)
    requires x < UINT_RANGE
    ensures Wrap32(x) == x
  {
  }

  /** Sums of lengths are indifferent to order: the length sort does not change the warning. */
  lemma {:induction false} SumLengthsPermutation(a: seq<Signal>, b: seq<Signal>)
    requires multiset(a) == multiset(b)
    ensures SumLengths(a) == SumLengths(b)
    decreases |a|
  {
    if a != [] {
      var x := a[|a| - 1];
      var a' := a[..|a| - 1];
      assert a == a' + [x];
      assert x in multiset(b);
      var k :| 0 <= k < |b| && b[k] == x;
      var b' := b[..k] + b[k + 1..];
      assert multiset(a') == multiset(a) - multiset{x} by {
        assert multiset(a) == multiset(a') + multiset{x};
      }
      RemoveOne(b, k);
      SumLengthsPermutation(a', b');
      SumLengthsRemove(b, k);
    }
  }

  /** Taking one signal out of a list takes one occurrence out of its multiset. */
  lemma RemoveOne(b: seq<Signal>, k: nat)
    requires k < |b|
    ensures multiset(b[..k] + b[k + 1..]) == multiset(b) - multiset{b[k]}
  {
    assert b == b[..k] + [b[k]] + b[k + 1..];
    assert multiset(b) == multiset(b[..k]) + multiset{b[k]} + multiset(b[k + 1..]);
  }

  /** Taking one signal out of a list takes its length out of the sum. */
  lemma {:induction false} SumLengthsRemove(b: seq<Signal>, k: nat)
    requires k < |b|
    ensures SumLengths(b) == SumLengths(b[..k] + b[k + 1..]) + b[k].bitLength
    decreases |b|
  {
    var n := |b| - 1;
    if k < n {
      var c := b[..k] + b[k + 1..];
      assert c[..|c| - 1] == b[..n][..k] + b[..n][k + 1..];
      assert c[|c| - 1] == b[n];
      SumLengthsRemove(b[..n], k);
    } else {
      assert b[..k] + b[k + 1..] == b[..n];
    }
  }

  // ---------------------------------------------------------------------------
  // The byte-order flags of msg2c.

  /** Some signal of the list has byte order e. */
  predicate Uses(sigs: seq<Signal>, e: Endianess)
  {
    exists j :: 0 <= j < |sigs| && sigs[j].endianess == e
  }

  /** msg2c: a message uses register m if any signal is Motorola, register i if any is Intel. */
  method UsageFlags(sigs: seq<Signal>) returns (motorolaUsed: bool, intelUsed: bool)
    ensures motorolaUsed <==> Uses(sigs, Motorola)
    ensures intelUsed <==> Uses(sigs, Intel)
  {
    motorolaUsed, intelUsed := false, false;
    var i := 0;
    while i < |sigs|
      invariant 0 <= i <= |sigs|
      invariant motorolaUsed <==> exists j :: 0 <= j < i && sigs[j].endianess == Motorola
      invariant intelUsed <==> exists j :: 0 <= j < i && sigs[j].endianess == Intel
    {
      if sigs[i].endianess == Motorola {
        motorolaUsed := true;
      } else {
        intelUsed := true;
      }
      i := i + 1;
    }
  }

  // ---------------------------------------------------------------------------
  // The sorts of dbc2c.

  /** message_compare_function orders messages by identifier. */
  function MessageCompare(a: Message, b: Message): (c: int)
    ensures ThreeWay(c, a.id, b.id)
  {
    if a.id < b.id then -1
    else if a.id == b.id then 0
    else 1
  }

  function IdKey(m: Message): int
  {
    m.id
  }

  lemma MessageCompareKey(a: Message, b: Message)
    ensures MessageCompare(a, b) <= 0 <==> IdKey(a) <= IdKey(b)
  {
  }

  /** The message with its signal list replaced: what sorting a message's signals may change. */
  function WithSignals(m: Message, sigs: seq<Signal>): (r: Message)
    ensures r.name == m.name && r.id == m.id && r.dlc == m.dlc && r.sigs == sigs
  {
    m.(sigs := sigs)
  }

  /**
   * dbc2c's sorts: the messages in place by identifier, then the signals of
   * each message in place by decreasing bit length.  byId is the message
   * array after the first sort.
   */
  method SortDatabase(msgs: array<Message>) returns (ghost byId: seq<Message>)
    modifies msgs
    ensures multiset(byId) == multiset(old(msgs[..])) && SortedBy(byId, IdKey)
    ensures |byId| == msgs.Length
    ensures forall k :: 0 <= k < msgs.Length ==>
              msgs[k] == WithSignals(byId[k], msgs[k].sigs)
              && multiset(msgs[k].sigs) == multiset(byId[k].sigs)
              && SortedBy(msgs[k].sigs, LengthKey)
    ensures SortedBy(msgs[..], IdKey)
  {
    SortByKey(msgs, IdKey);
    byId := msgs[..];
    var i := 0;
    while i < msgs.Length
      invariant 0 <= i <= msgs.Length
      invariant forall k :: i <= k < msgs.Length ==> msgs[k] == byId[k]
      invariant forall k :: 0 <= k < i ==>
                  msgs[k] == WithSignals(byId[k], msgs[k].sigs)
                  && multiset(msgs[k].sigs) == multiset(byId[k].sigs)
                  && SortedBy(msgs[k].sigs, LengthKey)
    {
      var sigs := new Signal[|msgs[i].sigs|](j requires 0 <= j < |msgs[i].sigs| reads msgs => msgs[i].sigs[j]);
      assert sigs[..] == msgs[i].sigs;
      SortByKey(sigs, LengthKey);
      msgs[i] := WithSignals(msgs[i], sigs[..]);
      i := i + 1;
    }
    assert forall k :: 0 <= k < msgs.Length ==> IdKey(msgs[k]) == IdKey(byId[k]);
  }
}
