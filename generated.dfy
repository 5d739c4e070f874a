/**
 * What the generated routines do at run time.  Pack_<msg> or-s every coded
 * signal into m (Motorola) or i (Intel), dispatches on the multiplexor and
 * stores `reverse_byte_order(m) | i`; Unpack_<msg> checks the received
 * length, splits the frame into m and i again and writes each coded signal
 * into the record.  The dispatchers Can_<db>_Pack_message and
 * Can_<db>_Unpack_message choose the routine by identifier.
 *
 * A message record (Can_<msg>_t) is a map from signal name to the integer
 * value of its member.  A floating member is represented by an IEEE-754 bit
 * pattern: the one pack754 makes of it on the sending side, and the one
 * handed to unpack754 on the receiving side.
 */
module Generated {
  import opened Word
  import opened Signals
  import opened Codec
  import opened Frame
  import opened Routines

  type Record = map<string, int>

  /** A message's part of the database-wide record: its members, its rx/tx bits and its receive time stamp. */
  datatype MsgState = MsgState(fields: Record, rx: bool, tx: bool, timeStamp: int)

  /** Every signal of the list has a length the emitted shifts and masks are defined for: 1 to 64 bits. */
  predicate Lengths(sigs: seq<Signal>)
  {
    forall j :: 0 <= j < |sigs| ==> 1 <= sigs[j].bitLength <= 64
  }

  /** The record has a member for every signal of the list. */
  predicate Members(sigs: seq<Signal>, rec: Record)
  {
    forall j :: 0 <= j < |sigs| ==> sigs[j].name in rec
  }

  /** Every signal of the list has a codable length and a member in the record. */
  predicate Packable(sigs: seq<Signal>, rec: Record)
  {
    Lengths(sigs) && Members(sigs, rec)
  }

  /** The multiplexor, if any, is codable and has a member. */
  predicate MuxPackable(mux: Option<Signal>, rec: Record)
  {
    mux.Some? ==> 1 <= mux.value.bitLength <= 64 && mux.value.name in rec
  }

  /** Every signal the routine codes, and its multiplexor, can be coded for the record: a routine the generator emits for a well-typed message. */
  predicate WellFormed(rt: Routine, rec: Record)
  {
    Packable(rt.plain, rec) && MuxPackable(rt.mux, rec) &&
    forall k :: 0 <= k < |rt.arms| ==> Packable(rt.arms[k].sigs, rec)
  }

  // ---------------------------------------------------------------------------
  // Pack

  /** The register a signal of the given byte order is coded in: m for Motorola, i for Intel. */
  function Reg(regs: Registers, e: Endianess): Word
  {
    if e == Motorola then regs.m else regs.i
  }

  /** The serializer code of one signal: its field or-ed into m or i. */
  function PackSignal(regs: Registers, s: Signal, rec: Record): (r: Registers)
    requires 1 <= s.bitLength <= 64 && s.name in rec
    ensures Reg(r, s.endianess) == Serialize(Reg(regs, s.endianess), s, rec[s.name])
    ensures forall e :: e != s.endianess ==> Reg(r, e) == Reg(regs, e)
  {
    if s.endianess == Motorola then regs.(m := Serialize(regs.m, s, rec[s.name]))
    else regs.(i := Serialize(regs.i, s, rec[s.name]))
  }

  /** The serializer code of a list of signals, in order. */
  function PackSignals(regs: Registers, sigs: seq<Signal>, rec: Record): Registers
    requires Packable(sigs, rec)
    decreases |sigs|
  {
    if sigs == [] then regs
    else
      assert Packable(sigs[1..], rec) by {
        assert forall j :: 0 <= j < |sigs| - 1 ==> sigs[1..][j] == sigs[j + 1];
      }
      PackSignals(PackSignal(regs, sigs[0], rec), sigs[1..], rec)
  }

  /** The arm a `switch` on value v enters: the first `case v:`; None is the `default:` branch. */
  function FindArm(arms: seq<Arm>, v: int): (r: Option<nat>)
    ensures r.None? <==> forall k :: 0 <= k < |arms| ==> arms[k].value != v
    ensures r.Some? ==> r.value < |arms| && arms[r.value].value == v
                        && forall k :: 0 <= k < r.value ==> arms[k].value != v
  {
    if arms == [] then None
    else if arms[0].value == v then Some(0)
    else match FindArm(arms[1..], v)
         case None => None
         case Some(k) => Some(k + 1)
  }

  /** The arm a routine's switch enters for a record, when it has a switch and some arm matches. */
  function SelectedArm(rt: Routine, rec: Record): seq<Signal>
    requires rt.mux.Some? ==> rt.mux.value.name in rec
  {
    if rt.mux.None? then []
    else match FindArm(rt.arms, rec[rt.mux.value.name])
         case None => []
         case Some(k) => rt.arms[k].sigs
  }

  /** The switch has no arm for the multiplexor's value: the `default: return -1;` branch. */
  predicate NoArm(rt: Routine, rec: Record)
    requires rt.mux.Some? ==> rt.mux.value.name in rec
  {
    rt.mux.Some? && FindArm(rt.arms, rec[rt.mux.value.name]).None?
  }

  /** The signals a run of the routine codes for a record: the plain ones, then the selected arm. */
  function Coded(rt: Routine, rec: Record): (sigs: seq<Signal>)
    requires rt.mux.Some? ==> rt.mux.value.name in rec
    ensures |rt.plain| <= |sigs| && sigs[..|rt.plain|] == rt.plain
    ensures WellFormed(rt, rec) ==> Packable(sigs, rec)
  {
    assert WellFormed(rt, rec) ==> Packable(rt.plain + SelectedArm(rt, rec), rec) by {
      if WellFormed(rt, rec) {
        ArmPackable(rt, rec, rec);
        PackableAppend(rt.plain, SelectedArm(rt, rec), rec);
      }
    }
    rt.plain + SelectedArm(rt, rec)
  }

  /** Whatever record the multiplexor is read from, the arm it selects can be coded for any record the routine is well formed for. */
  lemma ArmPackable(rt: Routine, rec: Record, other: Record)
    requires rt.mux.Some? ==> rt.mux.value.name in rec
    requires WellFormed(rt, other)
    ensures Packable(SelectedArm(rt, rec), other)
  {
  }

  lemma PackableAppend(a: seq<Signal>, b: seq<Signal>, rec: Record)
    requires Packable(a, rec) && Packable(b, rec)
    ensures Packable(a + b, rec)
  {
    assert forall j :: 0 <= j < |a + b| ==> (a + b)[j] == if j < |a| then a[j] else b[j - |a|];
  }

  /** The result of Pack_<msg>: its return value, the frame it stores (None: `*data` untouched) and the new state. */
  datatype PackResult = PackResult(status: int, data: Option<Word>, state: MsgState)

  /**
   * Pack_<msg>: the plain signals, then the switch on the record's
   * multiplexor member (`default: return -1;` before anything is stored),
   * then `*data = reverse_byte_order(m) | i` when the message has signals,
   * `o-><msg>_tx = 1` and `return 0`.
   */
  function Pack(rt: Routine, st: MsgState): (r: PackResult)
    requires WellFormed(rt, st.fields)
    ensures r.status == 0 || r.status == -1
    ensures r.status == -1 <==> NoArm(rt, st.fields)
    ensures r.status == -1 ==> r.data.None? && r.state == st
    ensures r.status == 0 ==> r.state == st.(tx := true) && (r.data.Some? <==> rt.motorolaUsed || rt.intelUsed)
  {
    if NoArm(rt, st.fields) then PackResult(-1, None, st)
    else
      var regs := PackSignals(Registers(ZERO, ZERO), Coded(rt, st.fields), st.fields);
      var data := if rt.motorolaUsed || rt.intelUsed then Some(Merge(regs, rt.motorolaUsed, rt.intelUsed)) else None;
      PackResult(0, data, st.(tx := true))
  }

  // ---------------------------------------------------------------------------
  // Unpack

  /** The deserializer code of one signal: the member receives the field read from m or i. */
  function UnpackSignal(regs: Registers, s: Signal, rec: Record): Record
    requires 1 <= s.bitLength <= 64
  {
    rec[s.name := Deserialize(Reg(regs, s.endianess), s)]
  }

  /** The deserializer code of a list of signals, in order. */
  function UnpackSignals(regs: Registers, sigs: seq<Signal>, rec: Record): (r: Record)
    requires Lengths(sigs)
    ensures rec.Keys <= r.Keys
    decreases |sigs|
  {
    if sigs == [] then rec
    else
      assert Lengths(sigs[1..]) by {
        assert forall j :: 0 <= j < |sigs| - 1 ==> sigs[1..][j] == sigs[j + 1];
      }
      UnpackSignals(regs, sigs[1..], UnpackSignal(regs, sigs[0], rec))
  }

  datatype UnpackResult = UnpackResult(status: int, state: MsgState)

  /**
   * Unpack_<msg>(o, data, dlc, time_stamp): `m = reverse_byte_order(data)`,
   * `i = data`; `if (dlc < DLC) return -1` when the declared DLC is not 0;
   * the plain signals; the switch on the multiplexor member just decoded
   * (`default: return -1;`, after the plain members were written); then
   * `o-><msg>_rx = 1`, the time stamp, and `return 0`.
   */
  function Unpack(rt: Routine, st: MsgState, data: Word, dlc: nat, timeStamp: int): (r: UnpackResult)
    requires WellFormed(rt, st.fields)
    ensures r.status == 0 || r.status == -1
    ensures dlc < rt.dlc ==> r.status == -1 && r.state == st
    ensures r.status == 0 ==> r.state.rx && r.state.timeStamp == timeStamp && r.state.tx == st.tx
    ensures r.status == -1 ==> r.state.rx == st.rx && r.state.tx == st.tx && r.state.timeStamp == st.timeStamp
    ensures dlc >= rt.dlc ==>
              var plain := UnpackSignals(Split(data), rt.plain, st.fields);
              (r.status == -1 <==> NoArm(rt, plain)) && (r.status == -1 ==> r.state.fields == plain)
  {
    var regs := Split(data);
    if rt.dlc != 0 && dlc < rt.dlc then UnpackResult(-1, st)
    else
      var fields := UnpackSignals(regs, rt.plain, st.fields);
      if NoArm(rt, fields) then UnpackResult(-1, st.(fields := fields))
      else
        var fields := UnpackSignals(regs, SelectedArm(rt, fields), fields);
        UnpackResult(0, st.(fields := fields, rx := true, timeStamp := timeStamp))
  }

  // ---------------------------------------------------------------------------
  // Round trip of a whole message.

  /** Two coded signals either are the same signal or have different members and share no frame bit. */
  predicate Compatible(s: Signal, t: Signal)
  {
    s == t || (s.name != t.name && WireDisjoint(s, t))
  }

  /** The layout the DBC file promises for the signals of one frame: each field fits its register and no two overlap on the wire. */
  predicate Layout(sigs: seq<Signal>)
  {
    (forall s :: s in sigs ==> Placed(s)) &&
    forall s, t :: s in sigs && t in sigs ==> Compatible(s, t)
  }

  /** The byte-order flags of msg2c cover every coded signal. */
  predicate FlagsCover(rt: Routine, sigs: seq<Signal>)
  {
    forall s :: s in sigs ==> if s.endianess == Motorola then rt.motorolaUsed else rt.intelUsed
  }

  /** Mirror is its own inverse. */
  lemma MirrorMirror(q: nat)
    requires q < 64
    ensures Mirror(Mirror(q)) == q
  {
  }

  /** A register bit no signal of that byte order covers keeps its value through the serializers. */
  lemma {:induction false} PackMiss(regs: Registers, sigs: seq<Signal>, rec: Record, e: Endianess, q: nat)
    requires Packable(sigs, rec) && q < 64
    requires forall t :: t in sigs && t.endianess == e ==> !InField(q, Shift(t), t.bitLength)
    ensures Reg(PackSignals(regs, sigs, rec), e)[q] == Reg(regs, e)[q]
    decreases |sigs|
  {
    if sigs != [] {
      var t := sigs[0];
      var regs' := PackSignal(regs, t, rec);
      if t.endianess == e {
        InsertKeepsOutside(Reg(regs, e), FieldBits(rec[t.name], t), Shift(t), t.bitLength);
      }
      assert Packable(sigs[1..], rec) by {
        assert forall j :: 0 <= j < |sigs| - 1 ==> sigs[1..][j] == sigs[j + 1];
      }
      PackMiss(regs', sigs[1..], rec, e, q);
    }
  }

  /**
   * A register bit inside the field of exactly one coded signal (possibly
   * coded more than once) ends up as that field's bit or-ed into the
   * register's previous value.
   */
  lemma {:induction false} PackHit(regs: Registers, sigs: seq<Signal>, rec: Record, s: Signal, q: nat)
    requires Packable(sigs, rec) && q < 64
    requires s in sigs && InField(q, Shift(s), s.bitLength)
    requires forall t :: t in sigs && t.endianess == s.endianess && InField(q, Shift(t), t.bitLength) ==> t == s
    ensures Reg(PackSignals(regs, sigs, rec), s.endianess)[q]
         == (Reg(regs, s.endianess)[q] || FieldBits(rec[s.name], s)[q - Shift(s)])
    decreases |sigs|
  {
    var t := sigs[0];
    var regs' := PackSignal(regs, t, rec);
    assert Packable(sigs[1..], rec) by {
      assert forall j :: 0 <= j < |sigs| - 1 ==> sigs[1..][j] == sigs[j + 1];
    }
    assert forall u :: u in sigs[1..] ==> u in sigs;
    if t == s {
      assert Reg(regs', s.endianess)[q] == (Reg(regs, s.endianess)[q] || FieldBits(rec[s.name], s)[q - Shift(s)]);
      if s in sigs[1..] {
        PackHit(regs', sigs[1..], rec, s, q);
      } else {
        PackMiss(regs', sigs[1..], rec, s.endianess, q);
      }
    } else {
      if t.endianess == s.endianess {
        InsertKeepsOutside(Reg(regs, t.endianess), FieldBits(rec[t.name], t), Shift(t), t.bitLength);
      }
      assert Reg(regs', s.endianess)[q] == Reg(regs, s.endianess)[q];
      PackHit(regs', sigs[1..], rec, s, q);
    }
  }

  /** A register no coded signal uses stays as it was. */
  lemma PackUnused(regs: Registers, sigs: seq<Signal>, rec: Record, e: Endianess)
    requires Packable(sigs, rec)
    requires forall t :: t in sigs ==> t.endianess != e
    ensures Reg(PackSignals(regs, sigs, rec), e) == Reg(regs, e)
  {
    forall q | 0 <= q < 64
      ensures Reg(PackSignals(regs, sigs, rec), e)[q] == Reg(regs, e)[q]
    {
      PackMiss(regs, sigs, rec, e, q);
    }
  }

  /** The other register's bit that the frame places on bit q of a signal's field belongs to no coded signal. */
  lemma OtherRegisterClear(sigs: seq<Signal>, s: Signal, q: nat)
    requires Layout(sigs) && s in sigs && q < 64 && InField(q, Shift(s), s.bitLength)
    ensures forall t :: t in sigs && t.endianess != s.endianess ==> !InField(Mirror(q), Shift(t), t.bitLength)
  {
    MirrorMirror(q);
    forall t | t in sigs && t.endianess != s.endianess
      ensures !InField(Mirror(q), Shift(t), t.bitLength)
    {
      assert Compatible(s, t);
      var p := if s.endianess == Motorola then Mirror(q) else q;
      assert OnWire(s, p);
      assert !OnWire(t, p);
    }
  }

  /** Bit q of a signal's field is covered by no other coded signal of the same byte order. */
  lemma SameRegisterOnly(sigs: seq<Signal>, s: Signal, q: nat)
    requires Layout(sigs) && s in sigs && q < 64 && InField(q, Shift(s), s.bitLength)
    ensures forall t :: t in sigs && t.endianess == s.endianess && InField(q, Shift(t), t.bitLength) ==> t == s
  {
    MirrorMirror(q);
    forall t | t in sigs && t.endianess == s.endianess && InField(q, Shift(t), t.bitLength)
      ensures t == s
    {
      assert Compatible(s, t);
      var p := if s.endianess == Motorola then Mirror(q) else q;
      assert OnWire(s, p) && OnWire(t, p);
    }
  }

  /** The registers Unpack starts from, for the frame Pack stored. */
  function Received(sigs: seq<Signal>, rec: Record, motorolaUsed: bool, intelUsed: bool): Registers
    requires Packable(sigs, rec) && (motorolaUsed || intelUsed)
  {
    Split(Merge(PackSignals(Registers(ZERO, ZERO), sigs, rec), motorolaUsed, intelUsed))
  }

  /** With every coded signal's register flagged, the received registers are m | reverse(i) and reverse(m) | i. */
  lemma ReceivedRegisters(sigs: seq<Signal>, rec: Record, motorolaUsed: bool, intelUsed: bool)
    requires Packable(sigs, rec) && (motorolaUsed || intelUsed)
    requires forall t :: t in sigs ==> if t.endianess == Motorola then motorolaUsed else intelUsed
    ensures var regs := PackSignals(Registers(ZERO, ZERO), sigs, rec);
            Received(sigs, rec, motorolaUsed, intelUsed)
            == Registers(Or(regs.m, ReverseByteOrder(regs.i)), Or(ReverseByteOrder(regs.m), regs.i))
  {
    var regs := PackSignals(Registers(ZERO, ZERO), sigs, rec);
    if !motorolaUsed {
      PackUnused(Registers(ZERO, ZERO), sigs, rec, Motorola);
    }
    if !intelUsed {
      PackUnused(Registers(ZERO, ZERO), sigs, rec, Intel);
    }
    MergeUnused(regs, motorolaUsed, intelUsed);
    SplitMerge(regs);
  }

  /** Each bit of a coded signal's field arrives in its register as the serializer wrote it. */
  lemma {:induction false} BitReadBack(sigs: seq<Signal>, rec: Record, motorolaUsed: bool, intelUsed: bool, s: Signal, q: nat)
    requires Packable(sigs, rec) && Layout(sigs) && s in sigs
    requires motorolaUsed || intelUsed
    requires forall t :: t in sigs ==> if t.endianess == Motorola then motorolaUsed else intelUsed
    requires q < 64 && InField(q, Shift(s), s.bitLength)
    ensures Reg(Received(sigs, rec, motorolaUsed, intelUsed), s.endianess)[q] == FieldBits(rec[s.name], s)[q - Shift(s)]
  {
    var zero := Registers(ZERO, ZERO);
    var regs := PackSignals(zero, sigs, rec);
    ReceivedRegisters(sigs, rec, motorolaUsed, intelUsed);
    OtherRegisterClear(sigs, s, q);
    SameRegisterOnly(sigs, s, q);
    PackHit(zero, sigs, rec, s, q);
    if s.endianess == Motorola {
      PackMiss(zero, sigs, rec, Intel, Mirror(q));
      ReverseAt(regs.i, q);
    } else {
      PackMiss(zero, sigs, rec, Motorola, Mirror(q));
      ReverseAt(regs.m, q);
    }
  }

  /** The field a deserializer reads back from the received registers is the field the serializer wrote. */
  lemma FieldReadBack(sigs: seq<Signal>, rec: Record, motorolaUsed: bool, intelUsed: bool, s: Signal)
    requires Packable(sigs, rec) && Layout(sigs) && s in sigs
    requires motorolaUsed || intelUsed
    requires forall t :: t in sigs ==> if t.endianess == Motorola then motorolaUsed else intelUsed
    ensures Extract(Reg(Received(sigs, rec, motorolaUsed, intelUsed), s.endianess), Shift(s), s.bitLength)
         == Extract(Serialize(ZERO, s, rec[s.name]), Shift(s), s.bitLength)
  {
    var back := Reg(Received(sigs, rec, motorolaUsed, intelUsed), s.endianess);
    var x := FieldBits(rec[s.name], s);
    var sent := Serialize(ZERO, s, rec[s.name]);
    var start := Shift(s);
    assert sent == Insert(ZERO, x, start);
    assert Placed(s);
    forall q | start <= q < start + s.bitLength
      ensures back[q] == sent[q]
    {
      BitReadBack(sigs, rec, motorolaUsed, intelUsed, s, q);
    }
    ExtractSame(back, sent, start, s.bitLength);
  }

  /** Two registers that agree on a field extract the same field. */
  lemma ExtractSame(a: Word, b: Word, start: nat, length: nat)
    requires start + length <= 64
    requires forall q :: start <= q < start + length ==> a[q] == b[q]
    ensures Extract(a, start, length) == Extract(b, start, length)
  {
    var x := Extract(a, start, length);
    var y := Extract(b, start, length);
    assert forall i :: 0 <= i < 64 ==> x[i] == y[i];
  }

  /** A deserializer reads only its own field. */
  lemma DeserializeField(a: Word, b: Word, s: Signal)
    requires 1 <= s.bitLength <= 64
    requires Extract(a, Shift(s), s.bitLength) == Extract(b, Shift(s), s.bitLength)
    ensures Deserialize(a, s) == Deserialize(b, s)
  {
  }

  /**
   * Every coded integer signal decodes from the received registers to the
   * member the sender held; for a coded floating signal, unpack754 receives
   * the pattern the sender's pack754 produced.
   */
  lemma FieldDecodes(sigs: seq<Signal>, rec: Record, motorolaUsed: bool, intelUsed: bool, s: Signal)
    requires Packable(sigs, rec) && Layout(sigs) && s in sigs
    requires motorolaUsed || intelUsed
    requires forall t :: t in sigs ==> if t.endianess == Motorola then motorolaUsed else intelUsed
    requires Carried(rec[s.name], s)
    ensures !s.isFloating ==> Deserialize(Reg(Received(sigs, rec, motorolaUsed, intelUsed), s.endianess), s) == rec[s.name]
    ensures s.isFloating ==> FieldPattern(Reg(Received(sigs, rec, motorolaUsed, intelUsed), s.endianess), s) == rec[s.name]
  {
    assert Placed(s);
    var back := Reg(Received(sigs, rec, motorolaUsed, intelUsed), s.endianess);
    var sent := Serialize(ZERO, s, rec[s.name]);
    FieldReadBack(sigs, rec, motorolaUsed, intelUsed, s);
    ExtractZero(Shift(s), s.bitLength);
    if s.isFloating {
      PatternDelivered(ZERO, s, rec[s.name]);
    } else {
      DeserializeField(back, sent, s);
      SerializeDeserialize(ZERO, s, rec[s.name]);
    }
  }

  lemma ExtractZero(start: nat, length: nat)
    requires length <= 64
    ensures Extract(ZERO, start, length) == ZERO
  {
    var z := Extract(ZERO, start, length);
    assert forall k :: 0 <= k < 64 ==> z[k] == ZERO[k];
  }

  /** Deserializing two lists one after the other is deserializing their concatenation. */
  lemma {:induction false} UnpackAppend(regs: Registers, a: seq<Signal>, b: seq<Signal>, rec: Record)
    requires Lengths(a) && Lengths(b)
    ensures Lengths(a + b)
    ensures UnpackSignals(regs, a + b, rec) == UnpackSignals(regs, b, UnpackSignals(regs, a, rec))
    decreases |a|
  {
    LengthsAppend(a, b);
    if a == [] {
      assert a + b == b;
    } else {
      var ab := a + b;
      assert ab[1..] == a[1..] + b && ab[0] == a[0];
      LengthsTail(a);
      var rec' := UnpackSignal(regs, a[0], rec);
      UnpackAppend(regs, a[1..], b, rec');
      assert UnpackSignals(regs, ab, rec) == UnpackSignals(regs, ab[1..], rec');
    }
  }

  lemma LengthsAppend(a: seq<Signal>, b: seq<Signal>)
    requires Lengths(a) && Lengths(b)
    ensures Lengths(a + b)
  {
    assert forall j :: 0 <= j < |a + b| ==> (a + b)[j] == if j < |a| then a[j] else b[j - |a|];
  }

  lemma LengthsTail(a: seq<Signal>)
    requires Lengths(a) && a != []
    ensures Lengths(a[1..])
  {
    assert forall j :: 0 <= j < |a| - 1 ==> a[1..][j] == a[j + 1];
  }

  /** A member no signal of the list names keeps its value. */
  lemma {:induction false} UnpackUntouched(regs: Registers, sigs: seq<Signal>, rec: Record, n: string)
    requires Lengths(sigs) && n in rec
    requires forall t :: t in sigs ==> t.name != n
    ensures n in UnpackSignals(regs, sigs, rec) && UnpackSignals(regs, sigs, rec)[n] == rec[n]
    decreases |sigs|
  {
    if sigs != [] {
      assert Lengths(sigs[1..]) by {
        assert forall j :: 0 <= j < |sigs| - 1 ==> sigs[1..][j] == sigs[j + 1];
      }
      assert forall u :: u in sigs[1..] ==> u in sigs;
      UnpackUntouched(regs, sigs[1..], UnpackSignal(regs, sigs[0], rec), n);
    }
  }

  /** A signal of the list, the only one with its member name, leaves its decoded field in the member. */
  lemma {:induction false} UnpackValue(regs: Registers, sigs: seq<Signal>, rec: Record, s: Signal)
    requires Lengths(sigs) && s in sigs
    requires forall t :: t in sigs && t.name == s.name ==> t == s
    ensures s.name in UnpackSignals(regs, sigs, rec)
    ensures UnpackSignals(regs, sigs, rec)[s.name] == Deserialize(Reg(regs, s.endianess), s)
    decreases |sigs|
  {
    assert Lengths(sigs[1..]) by {
      assert forall j :: 0 <= j < |sigs| - 1 ==> sigs[1..][j] == sigs[j + 1];
    }
    assert forall u :: u in sigs[1..] ==> u in sigs;
    var rec' := UnpackSignal(regs, sigs[0], rec);
    if s in sigs[1..] {
      UnpackValue(regs, sigs[1..], rec', s);
    } else {
      assert sigs[0] == s;
      UnpackUntouched(regs, sigs[1..], rec', s.name);
    }
  }

  /**
   * The conditions under which a routine's frame carries a record's values:
   * the multiplexor is coded outside the switch, some register is flagged,
   * the coded fields lie inside the frame without overlapping, the byte-order
   * flags cover every coded signal, and every member fits its field.  For the
   * code dbc2c emits, Database.CodeReady derives them from conditions on the
   * DBC data alone.
   */
  predicate RoundTripReady(rt: Routine, rec: Record)
    requires WellFormed(rt, rec)
  {
    var sigs := Coded(rt, rec);
    (rt.mux.Some? ==> rt.mux.value in rt.plain) &&
    (rt.motorolaUsed || rt.intelUsed) &&
    Layout(sigs) && FlagsCover(rt, sigs) &&
    forall s :: s in sigs ==> Carried(rec[s.name], s)
  }

  /** The frame a successful Pack_<msg> stores, as the registers Unpack_<msg> splits it into. */
  lemma PackedFrame(rt: Routine, st: MsgState)
    requires WellFormed(rt, st.fields) && (rt.motorolaUsed || rt.intelUsed)
    requires Pack(rt, st).status == 0
    ensures Packable(Coded(rt, st.fields), st.fields)
    ensures Pack(rt, st).data.Some?
    ensures Split(Pack(rt, st).data.value) == Received(Coded(rt, st.fields), st.fields, rt.motorolaUsed, rt.intelUsed)
  {
  }

  /** Unpack_<msg> past its length check and with an arm for the decoded multiplexor decodes the plain signals, then the arm. */
  lemma UnpackSucceeds(rt: Routine, rs: MsgState, data: Word, dlc: nat, timeStamp: int)
    requires WellFormed(rt, rs.fields) && dlc >= rt.dlc
    requires Lengths(rt.plain)
    requires !NoArm(rt, UnpackSignals(Split(data), rt.plain, rs.fields))
    ensures var f1 := UnpackSignals(Split(data), rt.plain, rs.fields);
            var arm := SelectedArm(rt, f1);
            Lengths(arm) &&
            Unpack(rt, rs, data, dlc, timeStamp)
            == UnpackResult(0, rs.(fields := UnpackSignals(Split(data), arm, f1), rx := true, timeStamp := timeStamp))
  {
    var f1 := UnpackSignals(Split(data), rt.plain, rs.fields);
    var arm := SelectedArm(rt, f1);
    ArmPackable(rt, f1, rs.fields);
  }

  /**
   * A Pack routine and an Unpack routine that code the same signals for a
   * record: the same multiplexor, the same plain signals up to order, an arm
   * in one exactly when there is one in the other, and the same coded
   * signals up to order and repetition.
   */
  ghost predicate Agree(pk: Routine, uk: Routine, rec: Record)
    requires pk.mux.Some? ==> pk.mux.value.name in rec
  {
    pk.mux == uk.mux
    && (forall s :: s in pk.plain <==> s in uk.plain)
    && (NoArm(pk, rec) <==> NoArm(uk, rec))
    && (forall s :: s in Coded(pk, rec) <==> s in Coded(uk, rec))
  }

  /**
   * For a routine coding a message's signals, the switch has no arm for the
   * record's multiplexor value exactly when no multiplexed signal has that
   * value, and a run codes exactly the signals that are not multiplexed and
   * the multiplexed ones with that value.
   */
  lemma {:induction false} CodedMembers(rt: Routine, sigs: seq<Signal>, rec: Record)
    requires CodesFor(rt, sigs)
    requires rt.mux.Some? ==> rt.mux.value.name in rec
    ensures NoArm(rt, rec) <==>
              rt.mux.Some? && forall s :: s in sigs && s.isMultiplexed ==> s.switchval != rec[rt.mux.value.name]
    ensures forall s :: s in Coded(rt, rec) <==>
              s in sigs && (!s.isMultiplexed || (rt.mux.Some? && s.switchval == rec[rt.mux.value.name]))
  {
    if rt.mux.Some? {
      var v := rec[rt.mux.value.name];
      assert ArmsWithin(rt.arms, sigs) && ArmsOpened(rt.arms, sigs) && ArmsCover(rt.arms, sigs) && DistinctValues(rt.arms);
      NoArmValue(rt.arms, sigs, v);
      match FindArm(rt.arms, v)
      case None =>
      case Some(k) =>
        ArmHolds(rt.arms, sigs, v, k);
        assert Coded(rt, rec) == rt.plain + rt.arms[k].sigs;
    }
  }

  /** No arm has a value exactly when no multiplexed signal of the message has it. */
  lemma {:induction false} NoArmValue(arms: seq<Arm>, sigs: seq<Signal>, v: int)
    requires ArmsOpened(arms, sigs) && ArmsCover(arms, sigs) && ArmsWithin(arms, sigs)
    ensures FindArm(arms, v).None? ==> forall s :: s in sigs && s.isMultiplexed ==> s.switchval != v
    ensures FindArm(arms, v).Some? ==> exists s :: s in sigs && s.isMultiplexed && s.switchval == v
  {
    var r := FindArm(arms, v);
    if r.None? {
      NoArmNone(arms, sigs, v);
    } else {
      NoArmSome(arms, sigs, v, r.value);
    }
  }

  /** The value of an arm is some multiplexed signal's. */
  lemma NoArmSome(arms: seq<Arm>, sigs: seq<Signal>, v: int, k: nat)
    requires ArmsOpened(arms, sigs) && k < |arms| && arms[k].value == v
    ensures exists s :: s in sigs && s.isMultiplexed && s.switchval == v
  {
    assert HasOpener(arms[k], sigs);
  }

  /** Without an arm for a value, no multiplexed signal of the message has it. */
  lemma NoArmNone(arms: seq<Arm>, sigs: seq<Signal>, v: int)
    requires ArmsCover(arms, sigs) && ArmsWithin(arms, sigs)
    requires forall k :: 0 <= k < |arms| ==> arms[k].value != v
    ensures forall s :: s in sigs && s.isMultiplexed ==> s.switchval != v
  {
    forall s | s in sigs && s.isMultiplexed
      ensures s.switchval != v
    {
      var k :| 0 <= k < |arms| && s in arms[k].sigs;
      assert s.switchval == arms[k].value;
    }
  }

  /** The arm found for a value holds every multiplexed signal with that value, and only signals with it. */
  lemma ArmHolds(arms: seq<Arm>, sigs: seq<Signal>, v: int, k: nat)
    requires ArmsCover(arms, sigs) && ArmsWithin(arms, sigs) && DistinctValues(arms)
    requires FindArm(arms, v) == Some(k)
    ensures forall s :: s in arms[k].sigs ==> s in sigs && s.switchval == v
    ensures forall s :: s in sigs && s.isMultiplexed && s.switchval == v ==> s in arms[k].sigs
  {
    forall s | s in sigs && s.isMultiplexed && s.switchval == v
      ensures s in arms[k].sigs
    {
      var j :| 0 <= j < |arms| && s in arms[j].sigs;
      assert arms[j].value == v;
      assert j == k;
    }
  }

  /** The two routines msg2c emits for a message agree for every record. */
  lemma EmittedAgree(code: MsgCode, sigs: seq<Signal>, rec: Record)
    requires Paired(code, sigs)
    requires code.pack.mux.Some? ==> code.pack.mux.value.name in rec
    ensures Agree(code.pack, code.unpack, rec)
  {
    CodedMembers(code.pack, sigs, rec);
    CodedMembers(code.unpack, sigs, rec);
  }

  /** The multiplexor member Unpack decodes from Pack's frame is the sender's, so the receiver takes the sender's arm. */
  lemma SameArm(pk: Routine, uk: Routine, st: MsgState, rs: MsgState)
    requires WellFormed(pk, st.fields) && WellFormed(uk, rs.fields)
    requires Agree(pk, uk, st.fields) && RoundTripReady(pk, st.fields)
    requires Pack(pk, st).status == 0
    ensures Lengths(uk.plain) && Pack(pk, st).data.Some?
    ensures var f1 := UnpackSignals(Split(Pack(pk, st).data.value), uk.plain, rs.fields);
            uk.mux.Some? ==> uk.mux.value.name in f1 && f1[uk.mux.value.name] == st.fields[uk.mux.value.name]
  {
    PackedFrame(pk, st);
    var sigs := Coded(pk, st.fields);
    if pk.mux.Some? {
      var mux := pk.mux.value;
      assert forall t :: t in uk.plain ==> t in sigs by {
        assert sigs == pk.plain + sigs[|pk.plain|..];
      }
      assert mux in sigs && Carried(st.fields[mux.name], mux);
      DecodesOne(uk.plain, sigs, st.fields, pk.motorolaUsed, pk.intelUsed, rs.fields, mux);
    }
  }

  /** A signal of a list decoded from the received registers, every signal of which was sent, reads back the sender's member. */
  lemma DecodesOne(dec: seq<Signal>, sigs: seq<Signal>, rec: Record, motorolaUsed: bool, intelUsed: bool, recv: Record, s: Signal)
    requires Packable(sigs, rec) && Layout(sigs) && (motorolaUsed || intelUsed)
    requires forall t :: t in sigs ==> if t.endianess == Motorola then motorolaUsed else intelUsed
    requires Lengths(dec) && s in dec && (forall t :: t in dec ==> t in sigs)
    requires Carried(rec[s.name], s)
    ensures var f := UnpackSignals(Received(sigs, rec, motorolaUsed, intelUsed), dec, recv);
            s.name in f && f[s.name] == rec[s.name]
  {
    assert forall t :: t in dec && t.name == s.name ==> t == s by {
      assert forall t :: t in dec ==> Compatible(s, t);
    }
    UnpackValue(Received(sigs, rec, motorolaUsed, intelUsed), dec, recv, s);
    FieldDecodes(sigs, rec, motorolaUsed, intelUsed, s);
  }

  /**
   * Decoding from the received registers a list holding every sent signal,
   * and only sent ones, restores every integer member the sender coded and
   * hands unpack754 every floating member's pattern.
   */
  lemma DecodesAll(dec: seq<Signal>, sigs: seq<Signal>, rec: Record, motorolaUsed: bool, intelUsed: bool, recv: Record)
    requires Packable(sigs, rec) && Layout(sigs)
    requires motorolaUsed || intelUsed
    requires forall t :: t in sigs ==> if t.endianess == Motorola then motorolaUsed else intelUsed
    requires forall t :: t in sigs ==> Carried(rec[t.name], t)
    requires Lengths(dec) && forall t :: t in dec <==> t in sigs
    ensures var f := UnpackSignals(Received(sigs, rec, motorolaUsed, intelUsed), dec, recv);
            Restores(sigs, rec, f, false) && Restores(sigs, rec, f, true)
  {
    var regs := Received(sigs, rec, motorolaUsed, intelUsed);
    forall s | s in sigs
      ensures var f := UnpackSignals(regs, dec, recv); s.name in f && f[s.name] == rec[s.name]
    {
      DecodesOne(dec, sigs, rec, motorolaUsed, intelUsed, recv, s);
    }
  }

  /**
   * The receiving record got back the sender's member of every signal of the
   * list of the given kind: for integer signals, the member's value; for
   * floating signals, the pattern pack754 produced, which unpack754 receives.
   */
  predicate Restores(sigs: seq<Signal>, sent: Record, got: Record, floating: bool)
  {
    forall s :: s in sigs && s.isFloating == floating && s.name in sent ==> s.name in got && got[s.name] == sent[s.name]
  }

  /**
   * Unpack_<msg> applied to the frame Pack_<msg> stored, with a received
   * length no smaller than the message's DLC, succeeds and gives every
   * integer member the sender coded its sender's value, and hands unpack754
   * the pattern of every floating one, whatever the receiving record held
   * before.  The two routines need only agree: msg2c builds them from two
   * sorts of the signals.
   */
  lemma {:induction false} PackUnpack(pk: Routine, uk: Routine, st: MsgState, rs: MsgState, dlc: nat, timeStamp: int)
    requires WellFormed(pk, st.fields) && WellFormed(uk, st.fields) && WellFormed(uk, rs.fields)
    requires Agree(pk, uk, st.fields) && RoundTripReady(pk, st.fields)
    requires Pack(pk, st).status == 0
    requires dlc >= uk.dlc
    ensures Pack(pk, st).data.Some?
    ensures var u := Unpack(uk, rs, Pack(pk, st).data.value, dlc, timeStamp);
            u.status == 0 && u.state.rx && u.state.timeStamp == timeStamp
            && Restores(Coded(pk, st.fields), st.fields, u.state.fields, false)
            && Restores(Coded(pk, st.fields), st.fields, u.state.fields, true)
  {
    var rec := st.fields;
    UnpackCoded(pk, uk, st, rs, dlc, timeStamp);
    DecodesAll(Coded(uk, rec), Coded(pk, rec), rec, pk.motorolaUsed, pk.intelUsed, rs.fields);
  }

  /** Unpack_<msg> of Pack_<msg>'s frame decodes, into the receiving record, the signals the sender coded. */
  lemma {:induction false} UnpackCoded(pk: Routine, uk: Routine, st: MsgState, rs: MsgState, dlc: nat, timeStamp: int)
    requires WellFormed(pk, st.fields) && WellFormed(uk, st.fields) && WellFormed(uk, rs.fields)
    requires Agree(pk, uk, st.fields) && RoundTripReady(pk, st.fields)
    requires Pack(pk, st).status == 0
    requires dlc >= uk.dlc
    ensures Pack(pk, st).data.Some? && Packable(Coded(pk, st.fields), st.fields)
    ensures Lengths(Coded(uk, st.fields))
    ensures var regs := Split(Pack(pk, st).data.value);
            regs == Received(Coded(pk, st.fields), st.fields, pk.motorolaUsed, pk.intelUsed)
            && Unpack(uk, rs, Pack(pk, st).data.value, dlc, timeStamp)
               == UnpackResult(0, rs.(fields := UnpackSignals(regs, Coded(uk, st.fields), rs.fields), rx := true, timeStamp := timeStamp))
  {
    var rec := st.fields;
    SameArm(pk, uk, st, rs);
    PackedFrame(pk, st);
    var data := Pack(pk, st).data.value;
    var regs := Split(data);
    var f1 := UnpackSignals(regs, uk.plain, rs.fields);
    assert SelectedArm(uk, f1) == SelectedArm(uk, rec);
    UnpackSucceeds(uk, rs, data, dlc, timeStamp);
    var arm := SelectedArm(uk, rec);
    UnpackAppend(regs, uk.plain, arm, rs.fields);
    assert uk.plain + arm == Coded(uk, rec);
  }


  // ---------------------------------------------------------------------------
  // Can_<db>_Pack_message and Can_<db>_Unpack_message.

  /** The `case` of the dispatcher's `switch (id)` that matches: the first message with the identifier; None is `default: break; return -1;`. */
  function DispatchIndex(codes: seq<MsgCode>, id: int): (r: Option<nat>)
    ensures r.None? <==> forall k :: 0 <= k < |codes| ==> codes[k].id != id
    ensures r.Some? ==> r.value < |codes| && codes[r.value].id == id
                        && forall k :: 0 <= k < r.value ==> codes[k].id != id
  {
    if codes == [] then None
    else if codes[0].id == id then Some(0)
    else match DispatchIndex(codes[1..], id)
         case None => None
         case Some(k) => Some(k + 1)
  }

  /** The identifiers of the generated messages are pairwise distinct, as a compilable `switch` needs. */
  predicate DistinctIds(codes: seq<MsgCode>)
  {
    forall j, k :: 0 <= j < k < |codes| ==> codes[j].id != codes[k].id
  }

  /** With distinct identifiers, the dispatcher reaches every message's own routines by its identifier. */
  lemma {:induction false} DispatchOwn(codes: seq<MsgCode>, k: nat)
    requires DistinctIds(codes) && k < |codes|
    ensures DispatchIndex(codes, codes[k].id) == Some(k)
  {
    var r := DispatchIndex(codes, codes[k].id);
    assert r.Some?;
    var j := r.value;
    assert codes[j].id == codes[k].id;
    assert !(k < j);
    assert !(j < k);
  }

  /** The database-wide record Can_<db>_t: one message state per generated message, in the same order. */
  predicate DbReady(codes: seq<MsgCode>, db: seq<MsgState>)
  {
    |db| == |codes| &&
    forall k :: 0 <= k < |codes| ==> WellFormed(codes[k].pack, db[k].fields) && WellFormed(codes[k].unpack, db[k].fields)
  }

  datatype DbPackResult = DbPackResult(status: int, data: Option<Word>, db: seq<MsgState>)

  /** Can_<db>_Pack_message: Pack_<msg> of the message with the identifier, or -1 with nothing changed for an unknown identifier. */
  function PackById(codes: seq<MsgCode>, db: seq<MsgState>, id: int): (r: DbPackResult)
    requires DbReady(codes, db)
    ensures |r.db| == |db|
    ensures DispatchIndex(codes, id).None? ==> r == DbPackResult(-1, None, db)
    ensures DispatchIndex(codes, id).Some? ==>
              var k := DispatchIndex(codes, id).value;
              var p := Pack(codes[k].pack, db[k]);
              r.status == p.status && r.data == p.data && r.db[k] == p.state
    ensures forall j :: 0 <= j < |db| && Some(j) != DispatchIndex(codes, id) ==> r.db[j] == db[j]
  {
    match DispatchIndex(codes, id)
    case None => DbPackResult(-1, None, db)
    case Some(k) =>
      var p := Pack(codes[k].pack, db[k]);
      DbPackResult(p.status, p.data, db[k := p.state])
  }

  datatype DbUnpackResult = DbUnpackResult(status: int, db: seq<MsgState>)

  /** Can_<db>_Unpack_message: Unpack_<msg> of the message with the identifier, or -1 with nothing changed for an unknown identifier. */
  function UnpackById(codes: seq<MsgCode>, db: seq<MsgState>, id: int, data: Word, dlc: nat, timeStamp: int): (r: DbUnpackResult)
    requires DbReady(codes, db)
    ensures |r.db| == |db|
    ensures DispatchIndex(codes, id).None? ==> r == DbUnpackResult(-1, db)
    ensures DispatchIndex(codes, id).Some? ==>
              var k := DispatchIndex(codes, id).value;
              var u := Unpack(codes[k].unpack, db[k], data, dlc, timeStamp);
              r.status == u.status && r.db[k] == u.state
    ensures forall j :: 0 <= j < |db| && Some(j) != DispatchIndex(codes, id) ==> r.db[j] == db[j]
  {
    match DispatchIndex(codes, id)
    case None => DbUnpackResult(-1, db)
    case Some(k) =>
      var u := Unpack(codes[k].unpack, db[k], data, dlc, timeStamp);
      DbUnpackResult(u.status, db[k := u.state])
  }

  /**
   * A frame packed by identifier and unpacked by the same identifier, into
   * a receiving record, restores every integer member the message coded and
   * hands unpack754 the pattern of every floating one, for the pair of
   * routines msg2c emits for the message's signals.
   */
  lemma DispatchRoundTrip(codes: seq<MsgCode>, sigs: seq<Signal>, tx: seq<MsgState>, rx: seq<MsgState>, k: nat, dlc: nat, timeStamp: int)
    requires DbReady(codes, tx) && DbReady(codes, rx) && DistinctIds(codes) && k < |codes|
    requires Paired(codes[k], sigs)
    requires RoundTripReady(codes[k].pack, tx[k].fields)
    requires PackById(codes, tx, codes[k].id).status == 0
    requires dlc >= codes[k].unpack.dlc
    ensures PackById(codes, tx, codes[k].id).data.Some?
    ensures var u := UnpackById(codes, rx, codes[k].id, PackById(codes, tx, codes[k].id).data.value, dlc, timeStamp);
            u.status == 0
            && Restores(Coded(codes[k].pack, tx[k].fields), tx[k].fields, u.db[k].fields, false)
            && Restores(Coded(codes[k].pack, tx[k].fields), tx[k].fields, u.db[k].fields, true)
  {
    DispatchOwn(codes, k);
    EmittedAgree(codes[k], sigs, tx[k].fields);
    PackUnpack(codes[k].pack, codes[k].unpack, tx[k], rx[k], dlc, timeStamp);
  }
}
