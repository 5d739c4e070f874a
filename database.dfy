/**
 * dbc2c: the whole generator run over a database.  The messages are sorted
 * by identifier and each message's signals by decreasing length; every
 * signal's record member is declared (signal2type, whose failure makes
 * dbc2c return -1); then msg2c emits each message in identifier order,
 * and a fatal error in any of them stops the run.
 */
module Database {
  import opened Signals
  import opened Sorting
  import opened Multiplex
  import opened Messages
  import opened Routines
  import opened Codec
  import opened Frame
  import opened Generated

  /** Every signal of the list is one signal2type accepts. */
  predicate SignalsTyped(sigs: seq<Signal>)
  {
    forall j :: 0 <= j < |sigs| ==> ValidLength(sigs[j])
  }

  /** Every signal of every message is one signal2type accepts. */
  predicate AllTyped(msgs: seq<Message>)
  {
    forall i :: 0 <= i < |msgs| ==> SignalsTyped(msgs[i].sigs)
  }

  /** The first signal signal2type refuses, by message and signal position. */
  datatype BadSignal = BadSignal(msg: nat, sig: nat, error: TypeError)

  /** The first signal of a list that signal2type refuses, and why. */
  method FirstBadSignal(sigs: seq<Signal>) returns (r: Option<(nat, TypeError)>)
    ensures r.None? <==> SignalsTyped(sigs)
    ensures r.Some? ==> r.value.0 < |sigs| && SignalToType(sigs[r.value.0]) == TypeFail(r.value.1)
                        && SignalsTyped(sigs[..r.value.0])
  {
    var j := 0;
    while j < |sigs|
      invariant 0 <= j <= |sigs|
      invariant SignalsTyped(sigs[..j])
    {
      var t := SignalToType(sigs[j]);
      if t.TypeFail? {
        return Some((j, t.error));
      }
      assert sigs[..j + 1] == sigs[..j] + [sigs[j]];
      j := j + 1;
    }
    assert sigs[..j] == sigs;
    return None;
  }

  /** msg2h_types: declares every message's members in order and gives up at the first signal signal2type refuses. */
  method MessageTypes(msgs: seq<Message>) returns (r: Option<BadSignal>)
    ensures r.None? <==> AllTyped(msgs)
    ensures r.Some? ==>
              r.value.msg < |msgs| && r.value.sig < |msgs[r.value.msg].sigs|
              && SignalToType(msgs[r.value.msg].sigs[r.value.sig]) == TypeFail(r.value.error)
              && AllTyped(msgs[..r.value.msg])
              && SignalsTyped(msgs[r.value.msg].sigs[..r.value.sig])
  {
    var i := 0;
    while i < |msgs|
      invariant 0 <= i <= |msgs|
      invariant AllTyped(msgs[..i])
    {
      var bad := FirstBadSignal(msgs[i].sigs);
      if bad.Some? {
        return Some(BadSignal(i, bad.value.0, bad.value.1));
      }
      assert msgs[..i + 1] == msgs[..i] + [msgs[i]];
      i := i + 1;
    }
    assert msgs[..i] == msgs;
    return None;
  }

  /** msg2c emits the message without stopping the generator. */
  predicate Emittable(m: Message)
  {
    !TwoMultiplexors(m.sigs) && !HasZeroScaling(m.sigs)
  }

  /**
   * What the code of one message says about the message it came from: its
   * identifier and DLC, the plain signals of Pack in the message's order,
   * `motorola_used` and `intel_used` set iff some signal has that byte order
   * in both routines, and a Pack and an Unpack routine that both code the
   * message's signals.
   */
  ghost predicate CodeOf(code: MsgCode, m: Message)
  {
    code.id == m.id && code.pack.dlc == m.dlc && code.unpack.dlc == m.dlc
    && code.pack.plain == Plain(m.sigs)
    && multiset(code.unpack.plain) == multiset(code.pack.plain)
    && (code.pack.motorolaUsed <==> Uses(m.sigs, Motorola))
    && (code.pack.intelUsed <==> Uses(m.sigs, Intel))
    && code.unpack.motorolaUsed == code.pack.motorolaUsed
    && code.unpack.intelUsed == code.pack.intelUsed
    && Paired(code, m.sigs)
  }

  /** The code of each message, in order. */
  ghost predicate CodesOf(codes: seq<MsgCode>, ms: seq<Message>)
  {
    |codes| == |ms| && forall k :: 0 <= k < |ms| ==> CodeOf(codes[k], ms[k])
  }

  /** Appending a message and its code keeps the codes in step. */
  lemma CodesOfAppend(codes: seq<MsgCode>, ms: seq<Message>, c: MsgCode, m: Message)
    requires CodesOf(codes, ms) && CodeOf(c, m)
    ensures CodesOf(codes + [c], ms + [m])
  {
  }

  /** msg2c on one message of the database: the code of its routines, and its signals in the order msg2c leaves them. */
  method GenerateMessage(m: Message) returns (g: Generation, sigs: seq<Signal>)
    ensures multiset(sigs) == multiset(m.sigs)
    ensures g.Stopped? <==> !Emittable(m)
    ensures g == Stopped(MultipleMultiplexors) <==> TwoMultiplexors(m.sigs)
    ensures g.Generated? ==> CodeOf(g.code, m)
  {
    var a := new Signal[|m.sigs|](j requires 0 <= j < |m.sigs| => m.sigs[j]);
    assert a[..] == m.sigs;
    g := Msg2C(m.id, m.dlc, a);
    sigs := a[..];
    if g.Stopped? {
      if g.reason == MultipleMultiplexors {
        assert g == Stopped(MultipleMultiplexors);
      } else {
        assert g == Stopped(ZeroScaling);
      }
    }
  }

  /** The end of a run: the code of every message, dbc2c returning -1 over a refused signal, or a fatal error in one message. */
  datatype Outcome = Emitted(codes: seq<MsgCode>) | Refused(bad: BadSignal) | Aborted(msg: nat, reason: Fatal)

  /** The identifiers of the emitted messages, in emission order, do not decrease. */
  predicate IdsAscending(codes: seq<MsgCode>)
  {
    forall j, k :: 0 <= j < k < |codes| ==> codes[j].id <= codes[k].id
  }

  /**
   * dbc2c's loop over msg2c: every message in order, stopping at the first
   * fatal error.  Each message keeps its identity and may have its signals
   * permuted.
   */
  method EmitMessages(msgs: array<Message>) returns (r: Outcome)
    modifies msgs
    ensures !r.Refused?
    ensures forall k :: 0 <= k < msgs.Length ==>
              msgs[k] == WithSignals(old(msgs[k]), msgs[k].sigs) && multiset(msgs[k].sigs) == multiset(old(msgs[k]).sigs)
    ensures r.Aborted? ==>
              r.msg < msgs.Length
              && (forall k :: 0 <= k < r.msg ==> Emittable(old(msgs[k])))
              && !Emittable(old(msgs[r.msg]))
              && (r.reason == MultipleMultiplexors <==> TwoMultiplexors(old(msgs[r.msg]).sigs))
    ensures r.Emitted? <==> forall k :: 0 <= k < msgs.Length ==> Emittable(old(msgs[k]))
    ensures r.Emitted? ==>
              |r.codes| == msgs.Length && forall k :: 0 <= k < msgs.Length ==> CodeOf(r.codes[k], old(msgs[k]))
  {
    ghost var before := msgs[..];
    var codes: seq<MsgCode> := [];
    var i := 0;
    while i < msgs.Length
      invariant 0 <= i <= msgs.Length && |codes| == i
      invariant forall k :: i <= k < msgs.Length ==> msgs[k] == before[k]
      invariant forall k :: 0 <= k < i ==>
                  msgs[k] == WithSignals(before[k], msgs[k].sigs) && multiset(msgs[k].sigs) == multiset(before[k].sigs)
      invariant forall k :: 0 <= k < i ==> Emittable(before[k])
      invariant CodesOf(codes, before[..i])
    {
      var m := msgs[i];
      var g, sigs := GenerateMessage(m);
      if g.Stopped? {
        return Aborted(i, g.reason);
      }
      msgs[i] := WithSignals(m, sigs);
      CodesOfAppend(codes, before[..i], g.code, m);
      assert before[..i + 1] == before[..i] + [m];
      codes := codes + [g.code];
      i := i + 1;
    }
    assert before[..i] == before;
    return Emitted(codes);
  }

  /**
   * dbc2c.  `sorted` is the database after both sorts, the one every later
   * stage reads; each message's signals may be permuted again by msg2c.
   */
  method DatabaseToC(msgs: array<Message>) returns (r: Outcome, ghost sorted: seq<Message>)
    modifies msgs
    ensures |sorted| == msgs.Length && SortedBy(sorted, IdKey)
    ensures forall k :: 0 <= k < msgs.Length ==>
              msgs[k] == WithSignals(sorted[k], msgs[k].sigs) && multiset(msgs[k].sigs) == multiset(sorted[k].sigs)
    ensures r.Refused? <==> !AllTyped(sorted)
    ensures r.Refused? ==>
              var b := r.bad;
              b.msg < |sorted| && b.sig < |sorted[b.msg].sigs|
              && SignalToType(sorted[b.msg].sigs[b.sig]) == TypeFail(b.error)
    ensures r.Aborted? ==>
              AllTyped(sorted) && r.msg < |sorted|
              && (forall k :: 0 <= k < r.msg ==> Emittable(sorted[k]))
              && !Emittable(sorted[r.msg])
              && (r.reason == MultipleMultiplexors <==> TwoMultiplexors(sorted[r.msg].sigs))
    ensures r.Emitted? <==> AllTyped(sorted) && forall k :: 0 <= k < |sorted| ==> Emittable(sorted[k])
    ensures r.Emitted? ==>
              |r.codes| == |sorted| && IdsAscending(r.codes)
              && forall k :: 0 <= k < |sorted| ==> CodeOf(r.codes[k], sorted[k])
  {
    ghost var byId := SortDatabase(msgs);
    sorted := msgs[..];
    var bad := MessageTypes(msgs[..]);
    if bad.Some? {
      return Refused(bad.value), sorted;
    }
    r := EmitMessages(msgs);
    if r.Emitted? {
      forall j, k | 0 <= j < k < |r.codes|
        ensures r.codes[j].id <= r.codes[k].id
      {
        assert IdKey(sorted[j]) <= IdKey(sorted[k]);
      }
    }
  }

  /**
   * For the code dbc2c emitted for messages with distinct identifiers, a
   * frame Can_<db>_Pack_message packs by a message's identifier and
   * Can_<db>_Unpack_message unpacks by the same identifier restores every
   * integer member the message coded and hands unpack754 the pattern of
   * every floating one.
   */
  lemma EmittedRoundTrip(msgs: seq<Message>, codes: seq<MsgCode>, tx: seq<MsgState>, rx: seq<MsgState>, k: nat, dlc: nat, timeStamp: int)
    requires |codes| == |msgs| && forall j :: 0 <= j < |msgs| ==> CodeOf(codes[j], msgs[j])
    requires forall i, j :: 0 <= i < j < |msgs| ==> msgs[i].id != msgs[j].id
    requires DbReady(codes, tx) && DbReady(codes, rx) && k < |msgs|
    requires MessageReady(msgs[k], tx[k].fields)
    requires PackById(codes, tx, msgs[k].id as int).status == 0
    requires dlc >= msgs[k].dlc as int
    ensures PackById(codes, tx, msgs[k].id as int).data.Some?
    ensures var u := UnpackById(codes, rx, msgs[k].id as int, PackById(codes, tx, msgs[k].id as int).data.value, dlc, timeStamp);
            u.status == 0
            && Restores(Coded(codes[k].pack, tx[k].fields), tx[k].fields, u.db[k].fields, false)
            && Restores(Coded(codes[k].pack, tx[k].fields), tx[k].fields, u.db[k].fields, true)
  {
    forall i, j | 0 <= i < j < |codes|
      ensures codes[i].id != codes[j].id
    {
      assert CodeOf(codes[i], msgs[i]) && CodeOf(codes[j], msgs[j]);
    }
    assert CodeOf(codes[k], msgs[k]);
    CodeReady(codes[k], msgs[k], tx[k].fields);
    DispatchRoundTrip(codes, msgs[k].sigs, tx, rx, k, dlc, timeStamp);
  }

  /** Two signals of a message a run may code together: not multiplexed under two different switch values. */
  predicate Together(s: Signal, t: Signal)
  {
    !(s.isMultiplexed && t.isMultiplexed && s.switchval != t.switchval)
  }

  /**
   * The layout the DBC file promises for a multiplexed frame: every field
   * fits its register, and signals a run may code together do not overlap;
   * the arms of different switch values may share frame bits.
   */
  predicate ArmLayout(sigs: seq<Signal>)
  {
    (forall s :: s in sigs ==> Placed(s)) &&
    forall s, t :: s in sigs && t in sigs && Together(s, t) ==> Compatible(s, t)
  }

  /** A signal the record selects: a plain one, or a multiplexed one whose value a multiplexor member holds. */
  predicate Selected(m: Message, s: Signal, rec: Record)
  {
    !s.isMultiplexed ||
    exists x :: x in m.sigs && x.isMultiplexor && x.name in rec && rec[x.name] == s.switchval
  }

  /**
   * What the DBC data must provide for a message's frame to carry a record:
   * the message has signals, its fields lie inside the frame and signals of
   * one arm do not overlap, every selected signal has a member that its
   * field can carry, and the multiplexor is not itself multiplexed (a
   * multiplexed one is decoded inside the switch, so the emitted Unpack
   * would switch on the receiving record's old member).
   */
  predicate MessageReady(m: Message, rec: Record)
  {
    |m.sigs| > 0 && ArmLayout(m.sigs)
    && (forall s :: s in m.sigs && Selected(m, s, rec) ==> s.name in rec && Carried(rec[s.name], s))
    && (forall s :: s in m.sigs && s.isMultiplexor ==> !s.isMultiplexed)
  }

  /**
   * A run of the code msg2c emitted for a message codes signals of the
   * message that the record selects, and no two of them lie in different
   * arms.
   */
  lemma CodedSelected(code: MsgCode, m: Message, rec: Record)
    requires CodeOf(code, m) && WellFormed(code.pack, rec)
    ensures forall s :: s in Coded(code.pack, rec) ==> s in m.sigs && Selected(m, s, rec)
    ensures forall s, t :: s in Coded(code.pack, rec) && t in Coded(code.pack, rec) ==> Together(s, t)
  {
    var rt := code.pack;
    assert CodesFor(rt, m.sigs);
    CodedMembers(rt, m.sigs, rec);
    forall s | s in Coded(rt, rec) && s.isMultiplexed
      ensures Selected(m, s, rec)
    {
      assert rt.mux.value in m.sigs && rt.mux.value.isMultiplexor;
    }
  }

  /**
   * For the code msg2c emitted for a message, the DBC data's conditions give
   * every condition of the round trip: the generator supplies the
   * multiplexor outside the switch, byte-order flags covering every coded
   * signal, and a run codes the plain signals and one arm only.
   */
  lemma CodeReady(code: MsgCode, m: Message, rec: Record)
    requires CodeOf(code, m) && WellFormed(code.pack, rec) && MessageReady(m, rec)
    ensures RoundTripReady(code.pack, rec)
  {
    var rt := code.pack;
    assert CodesFor(rt, m.sigs);
    CodedMembers(rt, m.sigs, rec);
    CodedSelected(code, m, rec);
    var sigs := Coded(rt, rec);
    forall s | s in sigs
      ensures if s.endianess == Motorola then rt.motorolaUsed else rt.intelUsed
    {
      var j :| 0 <= j < |m.sigs| && m.sigs[j] == s;
      assert Uses(m.sigs, s.endianess);
    }
    assert Uses(m.sigs, m.sigs[0].endianess);
  }

  /** The multiplexor of the usual multiplexed frame: byte 0, Intel. */
  function SharedMux(): Signal
  {
    Signal("mux", 0, 8, Intel, false, false, 1.0, 0.0, 0.0, 255.0, true, false, 0)
  }

  /** A member of arm v of the usual multiplexed frame: byte 1, Intel. */
  function SharedArm(name: string, v: u32): Signal
  {
    Signal(name, 8, 8, Intel, false, false, 1.0, 0.0, 0.0, 255.0, false, true, v)
  }

  /** The two arms share byte 1, and the multiplexor's byte is apart from it. */
  lemma SharedArmLayout()
    ensures OnWire(SharedArm("a", 0), 8) && OnWire(SharedArm("b", 1), 8)
    ensures ArmLayout([SharedMux(), SharedArm("a", 0), SharedArm("b", 1)])
  {
    assert WireDisjoint(SharedMux(), SharedArm("a", 0)) && WireDisjoint(SharedMux(), SharedArm("b", 1));
  }

  /**
   * The usual multiplexed frame, whose two arms share byte 1, is ready for
   * a record that selects arm 0, whatever the member of the arm it does not
   * select holds.
   */
  lemma SharedArmReady()
    ensures MessageReady(Message("m", 1, 8, [SharedMux(), SharedArm("a", 0), SharedArm("b", 1)]),
                         map["mux" := 0, "a" := 7, "b" := 300])
  {
    var m := Message("m", 1, 8, [SharedMux(), SharedArm("a", 0), SharedArm("b", 1)]);
    var rec := map["mux" := 0, "a" := 7, "b" := 300];
    SharedArmLayout();
    assert !Selected(m, SharedArm("b", 1), rec);
    assert Carried(rec["mux"], SharedMux()) && Carried(rec["a"], SharedArm("a", 0));
  }
}
