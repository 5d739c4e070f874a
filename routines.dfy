/**
 * What msg_pack and msg_unpack decide to emit for one message: the signals
 * coded unconditionally (process_signals_and_find_multiplexer skips the
 * multiplexed ones), the multiplexor, the `case` arms of multiplexor_switch
 * with the signals each arm codes, the declared DLC that guards Unpack and
 * the two byte-order flags.  EmitRoutine and Msg2C are the generator steps
 * that build these descriptions; DatabaseToC is dbc2c's pass over all
 * messages.
 */
module Routines {
  import opened Signals
  import opened Sorting
  import opened Multiplex
  import opened Messages
  import opened Scaling

  /** One `case value:` arm and the signals it codes, in emission order. */
  datatype Arm = Arm(value: u32, sigs: seq<Signal>)

  datatype Routine = Routine(
    plain: seq<Signal>,
    mux: Option<Signal>,
    arms: seq<Arm>,
    dlc: u32,
    motorolaUsed: bool,
    intelUsed: bool)

  /** The generated Pack and Unpack routines of one message, under its identifier. */
  datatype MsgCode = MsgCode(id: u32, pack: Routine, unpack: Routine)

  /** The signals coded outside the switch, in list order. */
  function Plain(sigs: seq<Signal>): (r: seq<Signal>)
  {
    if sigs == [] then []
    else
      var last := sigs[|sigs| - 1];
      Plain(sigs[..|sigs| - 1]) + (if last.isMultiplexed then [] else [last])
  }

  /** The signal lists of the arms multiplexor_switch emits over the sorted array s. */
  function ArmsOf(s: seq<Signal>, cs: seq<Case>): (arms: seq<Arm>)
    requires forall p :: 0 <= p < |cs| ==> cs[p].first <= cs[p].end <= |s|
    ensures |arms| == |cs|
    ensures forall p :: 0 <= p < |cs| ==> arms[p] == Arm(cs[p].value, s[cs[p].first..cs[p].end])
  {
    if cs == [] then [] else [Arm(cs[0].value, s[cs[0].first..cs[0].end])] + ArmsOf(s, cs[1..])
  }

  /** The arms multiplexor_switch emits over the sorted signals s. */
  function SwitchArms(s: seq<Signal>): (arms: seq<Arm>)
    ensures |arms| == |Cases(s)|
  {
    ArmsOf(s, Cases(s))
  }

  /** No two arms carry the same value. */
  predicate DistinctValues(arms: seq<Arm>)
  {
    forall j, k :: 0 <= j < k < |arms| ==> arms[j].value != arms[k].value
  }

  /** An arm holds only signals of the message with its value. */
  ghost predicate ArmsWithin(arms: seq<Arm>, sigs: seq<Signal>)
  {
    forall k, s :: 0 <= k < |arms| && s in arms[k].sigs ==> s in sigs && s.switchval == arms[k].value
  }

  /** Some multiplexed signal of the message has the arm's value. */
  ghost predicate HasOpener(arm: Arm, sigs: seq<Signal>)
  {
    exists s :: s in sigs && s.isMultiplexed && s.switchval == arm.value
  }

  /** Each arm's value is the value of a multiplexed signal of the message. */
  ghost predicate ArmsOpened(arms: seq<Arm>, sigs: seq<Signal>)
  {
    forall k {:trigger HasOpener(arms[k], sigs)} :: 0 <= k < |arms| ==> HasOpener(arms[k], sigs)
  }

  /** Every multiplexed signal of the message is in some arm. */
  ghost predicate ArmsCover(arms: seq<Arm>, sigs: seq<Signal>)
  {
    forall s :: s in sigs && s.isMultiplexed ==> exists k :: 0 <= k < |arms| && s in arms[k].sigs
  }

  /**
   * What the `case` arms of a switch code, for the signals of a message: the
   * arm of a value holds every multiplexed signal with that value and only
   * signals with that value, and there is an arm exactly for the values of
   * the multiplexed signals.
   */
  ghost predicate ArmsFor(arms: seq<Arm>, sigs: seq<Signal>)
  {
    DistinctValues(arms) && ArmsWithin(arms, sigs) && ArmsOpened(arms, sigs) && ArmsCover(arms, sigs)
  }

  /** Two orders of the same signals have the same members. */
  lemma SameMembers(a: seq<Signal>, b: seq<Signal>)
    requires multiset(a) == multiset(b)
    ensures forall t :: t in a <==> t in b
  {
    assert forall t :: t in a <==> t in multiset(a);
    assert forall t :: t in b <==> t in multiset(b);
  }

  /**
   * The arms multiplexor_switch emits over any sorted order of a message's
   * signals are arms for the message.
   */
  lemma SwitchArmsFor(s: seq<Signal>, sigs: seq<Signal>)
    requires SortedBy(s, SwitchKey) && multiset(s) == multiset(sigs)
    ensures ArmsFor(SwitchArms(s), sigs)
  {
    SameMembers(s, sigs);
    SwitchArmsDistinct(s);
    SwitchArmsWithin(s);
    SwitchArmsOpened(s);
    SwitchArmsCover(s);
    ArmsForMembers(SwitchArms(s), s, sigs);
  }

  lemma SwitchArmsDistinct(s: seq<Signal>)
    requires SortedBy(s, SwitchKey)
    ensures DistinctValues(SwitchArms(s))
  {
    var cs := Cases(s);
    CasesOrdered(s, 0);
    assert forall j, k :: 0 <= j < k < |cs| ==> cs[j].value < cs[k].value;
  }

  lemma SwitchArmsWithin(s: seq<Signal>)
    ensures ArmsWithin(SwitchArms(s), s)
  {
    var cs := Cases(s);
    var arms := SwitchArms(s);
    CasesShape(s, 0);
    forall k, t | 0 <= k < |arms| && t in arms[k].sigs
      ensures t in s && t.switchval == arms[k].value
    {
      assert ArmShape(s, cs[k]);
      var i :| 0 <= i < |arms[k].sigs| && arms[k].sigs[i] == t;
      assert t == s[cs[k].first + i];
    }
  }

  lemma SwitchArmsOpened(s: seq<Signal>)
    ensures ArmsOpened(SwitchArms(s), s)
  {
    var cs := Cases(s);
    var arms := SwitchArms(s);
    CasesShape(s, 0);
    forall k | 0 <= k < |arms|
      ensures HasOpener(arms[k], s)
    {
      assert ArmShape(s, cs[k]);
      assert s[cs[k].first] in s;
    }
  }

  lemma SwitchArmsCover(s: seq<Signal>)
    ensures ArmsCover(SwitchArms(s), s)
  {
    var cs := Cases(s);
    var arms := SwitchArms(s);
    CasesCover(s, 0);
    forall t | t in s && t.isMultiplexed
      ensures exists k :: 0 <= k < |arms| && t in arms[k].sigs
    {
      var i :| 0 <= i < |s| && s[i] == t;
      assert Covers(s, 0, cs);
      var p :| 0 <= p < |cs| && InCase(cs[p], i);
      var a := s[cs[p].first..cs[p].end];
      assert arms[p].sigs == a;
      assert a[i - cs[p].first] == t;
    }
  }

  /** A signal is outside the switch exactly when it is not multiplexed. */
  lemma PlainMembers(x: seq<Signal>)
    ensures forall s :: s in Plain(x) <==> s in x && !s.isMultiplexed
  {
    forall s
      ensures s in Plain(x) <==> s in x && !s.isMultiplexed
    {
      PlainCount(x, s);
      assert s in Plain(x) <==> s in multiset(Plain(x));
      assert s in x <==> s in multiset(x);
    }
  }

  /**
   * A routine of msg_pack or msg_unpack for the signals of a message: outside
   * the switch, exactly the signals that are not multiplexed; no switch
   * exactly when the message has no multiplexor; with a switch, on a
   * multiplexor of the message, arms as multiplexor_switch makes them.
   */
  ghost predicate CodesFor(rt: Routine, sigs: seq<Signal>)
  {
    (forall s :: s in rt.plain <==> s in sigs && !s.isMultiplexed)
    && (rt.mux.None? <==> forall s :: s in sigs ==> !s.isMultiplexor)
    && (rt.mux.None? ==> rt.arms == [])
    && (rt.mux.Some? ==> rt.mux.value in sigs && rt.mux.value.isMultiplexor && ArmsFor(rt.arms, sigs))
  }

  /** The Pack and Unpack routines msg2c emits for a message's signals: both code them, with the same multiplexor. */
  ghost predicate Paired(code: MsgCode, sigs: seq<Signal>)
  {
    CodesFor(code.pack, sigs) && CodesFor(code.unpack, sigs) && code.pack.mux == code.unpack.mux
  }

  /** CodesFor depends on which signals a message has, not on their order. */
  lemma CodesForPermutation(rt: Routine, a: seq<Signal>, b: seq<Signal>)
    requires multiset(a) == multiset(b) && CodesFor(rt, a)
    ensures CodesFor(rt, b)
  {
    SameMembers(a, b);
    if rt.mux.Some? {
      ArmsForMembers(rt.arms, a, b);
    }
  }

  lemma ArmsForMembers(arms: seq<Arm>, a: seq<Signal>, b: seq<Signal>)
    requires forall t :: t in a <==> t in b
    requires ArmsFor(arms, a)
    ensures ArmsFor(arms, b)
  {
    assert ArmsWithin(arms, a) && ArmsOpened(arms, a) && ArmsCover(arms, a);
    forall k | 0 <= k < |arms|
      ensures HasOpener(arms[k], b)
    {
      assert HasOpener(arms[k], a);
      var t :| t in a && t.isMultiplexed && t.switchval == arms[k].value;
      assert t in b;
    }
    assert ArmsOpened(arms, b);
    assert ArmsWithin(arms, b);
    assert ArmsCover(arms, b);
  }

  /** Without a second multiplexor, a message has at most one. */
  lemma OnlyMultiplexor(sigs: seq<Signal>, a: Signal, b: Signal)
    requires !TwoMultiplexors(sigs)
    requires a in sigs && a.isMultiplexor && b in sigs && b.isMultiplexor
    ensures a == b
  {
    var j :| 0 <= j < |sigs| && sigs[j] == a;
    var k :| 0 <= k < |sigs| && sigs[k] == b;
    if j < k {
      assert sigs[j].isMultiplexor && sigs[k].isMultiplexor;
    } else if k < j {
      assert sigs[k].isMultiplexor && sigs[j].isMultiplexor;
    }
  }

  /** Positions of the multiplexor in a list without a second one. */
  predicate IsMultiplexorOf(m: Signal, sigs: seq<Signal>)
  {
    exists j :: 0 <= j < |sigs| && sigs[j] == m && m.isMultiplexor
  }

  /** What the walk of process_signals_and_find_multiplexer finds. */
  datatype Walk = Walk(plain: seq<Signal>, mux: Option<Signal>) | SecondMultiplexor

  /**
   * process_signals_and_find_multiplexer: emits the code of every signal that
   * is not multiplexed, in list order, and remembers the multiplexor; meeting
   * a second multiplexor is fatal.
   */
  method ProcessSignals(sigs: seq<Signal>) returns (w: Walk)
    ensures w.SecondMultiplexor? <==> TwoMultiplexors(sigs)
    ensures w.Walk? ==> w.plain == Plain(sigs)
    ensures w.Walk? && w.mux.None? ==> forall j :: 0 <= j < |sigs| ==> !sigs[j].isMultiplexor
    ensures w.Walk? && w.mux.Some? ==> IsMultiplexorOf(w.mux.value, sigs)
  {
    var plain := [];
    var multiplexor: Option<Signal> := None;
    ghost var at := 0;
    var i := 0;
    while i < |sigs|
      invariant 0 <= i <= |sigs|
      invariant plain == Plain(sigs[..i])
      invariant multiplexor.None? ==> forall j :: 0 <= j < i ==> !sigs[j].isMultiplexor
      invariant multiplexor.Some? ==>
                  at < i && sigs[at] == multiplexor.value && multiplexor.value.isMultiplexor
                  && forall j :: 0 <= j < i && j != at ==> !sigs[j].isMultiplexor
    {
      assert sigs[..i + 1] == sigs[..i] + [sigs[i]];
      if sigs[i].isMultiplexor {
        if multiplexor.Some? {
          assert sigs[at].isMultiplexor && sigs[i].isMultiplexor;
          return SecondMultiplexor;
        }
        multiplexor := Some(sigs[i]);
        at := i;
      }
      if !sigs[i].isMultiplexed {
        plain := plain + [sigs[i]];
      }
      i := i + 1;
    }
    assert sigs[..i] == sigs;
    w := Walk(plain, multiplexor);
  }

  /**
   * One of the routines of msg_pack or msg_unpack: the walk of
   * process_signals_and_find_multiplexer over the message's signals, then,
   * when a multiplexor was met, multiplexor_switch, which sorts the array in
   * place.  A second multiplexor is fatal (None).
   */
  method EmitRoutine(sigs: array<Signal>, dlc: u32, motorolaUsed: bool, intelUsed: bool) returns (r: Option<Routine>)
    modifies sigs
    ensures multiset(sigs[..]) == multiset(old(sigs[..]))
    ensures r.None? <==> TwoMultiplexors(old(sigs[..]))
    ensures r.None? ==> sigs[..] == old(sigs[..])
    ensures r.Some? ==>
              r.value.plain == Plain(old(sigs[..])) && r.value.dlc == dlc
              && r.value.motorolaUsed == motorolaUsed && r.value.intelUsed == intelUsed
    ensures r.Some? && r.value.mux.None? ==>
              (forall j :: 0 <= j < sigs.Length ==> !sigs[j].isMultiplexor)
              && r.value.arms == [] && sigs[..] == old(sigs[..])
    ensures r.Some? && r.value.mux.Some? ==>
              IsMultiplexorOf(r.value.mux.value, old(sigs[..]))
              && SortedBy(sigs[..], SwitchKey) && r.value.arms == SwitchArms(sigs[..])
    ensures r.Some? ==> CodesFor(r.value, old(sigs[..]))
  {
    ghost var original := sigs[..];
    var w := ProcessSignals(sigs[..]);
    if w.SecondMultiplexor? {
      return None;
    }
    PlainMembers(original);
    var arms := [];
    if w.mux.Some? {
      var cases := MultiplexorSwitch(sigs);
      arms := ArmsOf(sigs[..], cases);
      SwitchArmsFor(sigs[..], original);
    }
    r := Some(Routine(w.plain, w.mux, arms, dlc, motorolaUsed, intelUsed));
  }

  /** Why generating a message stops the generator. */
  datatype Fatal = MultipleMultiplexors | ZeroScaling

  datatype Generation = Generated(code: MsgCode) | Stopped(reason: Fatal)

  /**
   * msg2c for one message whose signals are in the array: the byte-order
   * flags, msg_dlc_check (whose warning does not stop generation), the Pack
   * routine, the Unpack routine (built after Pack's sort), then the scaled
   * accessors of every signal, which stop the generator on a zero scaling.
   */
  method Msg2C(id: u32, dlc: u32, sigs: array<Signal>) returns (g: Generation)
    modifies sigs
    ensures multiset(sigs[..]) == multiset(old(sigs[..]))
    ensures g == Stopped(MultipleMultiplexors) <==> TwoMultiplexors(old(sigs[..]))
    ensures g == Stopped(ZeroScaling) <==> !TwoMultiplexors(old(sigs[..])) && HasZeroScaling(old(sigs[..]))
    ensures g.Generated? ==>
              g.code.id == id && g.code.pack.dlc == dlc && g.code.unpack.dlc == dlc
              && g.code.pack.plain == Plain(old(sigs[..]))
              && multiset(g.code.unpack.plain) == multiset(g.code.pack.plain)
              && (g.code.pack.motorolaUsed <==> Uses(old(sigs[..]), Motorola))
              && (g.code.pack.intelUsed <==> Uses(old(sigs[..]), Intel))
              && g.code.unpack.motorolaUsed == g.code.pack.motorolaUsed
              && g.code.unpack.intelUsed == g.code.pack.intelUsed
              && Paired(g.code, old(sigs[..]))
  {
    ghost var original := sigs[..];
    var motorolaUsed, intelUsed := UsageFlags(sigs[..]);
    var check := MsgDlcCheck(Message("", id, dlc, sigs[..]));
    if check == DlcFatal {
      return Stopped(MultipleMultiplexors);
    }
    var pack := EmitRoutine(sigs, dlc, motorolaUsed, intelUsed);
    ghost var sorted := sigs[..];
    PermutationKeepsMultiplexors(original, sorted);
    var unpack := EmitRoutine(sigs, dlc, motorolaUsed, intelUsed);
    CodesForPermutation(unpack.value, sorted, original);
    if pack.value.mux.Some? {
      OnlyMultiplexor(original, pack.value.mux.value, unpack.value.mux.value);
    }
    PlainPermutation(original, sorted);
    PlainPermutation(sorted, sigs[..]);
    var zero := FindZeroScaling(sigs[..]);
    ZeroScalingPermutation(original, sigs[..]);
    if zero {
      return Stopped(ZeroScaling);
    }
    g := Generated(MsgCode(id, pack.value, unpack.value));
  }

  predicate HasZeroScaling(sigs: seq<Signal>)
  {
    exists j :: 0 <= j < |sigs| && sigs[j].scaling == 0.0
  }

  /** The loop of msg2c over the scaled accessors, which stops at the first zero scaling factor. */
  method FindZeroScaling(sigs: seq<Signal>) returns (zero: bool)
    ensures zero <==> HasZeroScaling(sigs)
  {
    var i := 0;
    while i < |sigs|
      invariant 0 <= i <= |sigs|
      invariant forall j :: 0 <= j < i ==> sigs[j].scaling != 0.0
    {
      if sigs[i].scaling == 0.0 {
        return true;
      }
      i := i + 1;
    }
    return false;
  }

  lemma ZeroScalingPermutation(a: seq<Signal>, b: seq<Signal>)
    requires multiset(a) == multiset(b)
    ensures HasZeroScaling(a) <==> HasZeroScaling(b)
  {
    if HasZeroScaling(a) {
      var j :| 0 <= j < |a| && a[j].scaling == 0.0;
      assert a[j] in multiset(b);
    }
    if HasZeroScaling(b) {
      var j :| 0 <= j < |b| && b[j].scaling == 0.0;
      assert b[j] in multiset(a);
    }
  }

  /** A second multiplexor is found in every order of the signals. */
  lemma PermutationKeepsMultiplexors(a: seq<Signal>, b: seq<Signal>)
    requires multiset(a) == multiset(b)
    ensures TwoMultiplexors(a) <==> TwoMultiplexors(b)
  {
    if TwoMultiplexors(a) {
      TwoMultiplexorsMoved(a, b);
    }
    if TwoMultiplexors(b) {
      TwoMultiplexorsMoved(b, a);
    }
  }

  lemma TwoMultiplexorsMoved(a: seq<Signal>, b: seq<Signal>)
    requires multiset(a) == multiset(b) && TwoMultiplexors(a)
    ensures TwoMultiplexors(b)
  {
    var j, k :| 0 <= j < k < |a| && a[j].isMultiplexor && a[k].isMultiplexor;
    assert a[j] in multiset(b) && a[k] in multiset(b);
    if a[j] == a[k] {
      assert a == a[..k] + [a[k]] + a[k + 1..];
      assert a[j] in a[..k];
      assert multiset(a)[a[j]] >= 2;
      TwiceIn(b, a[j]);
    } else {
      var j' :| 0 <= j' < |b| && b[j'] == a[j];
      var k' :| 0 <= k' < |b| && b[k'] == a[k];
      if j' < k' {
        assert b[j'].isMultiplexor && b[k'].isMultiplexor;
      } else {
        assert b[k'].isMultiplexor && b[j'].isMultiplexor;
      }
    }
  }

  /** An element of multiplicity at least two sits at two positions. */
  lemma TwiceIn(b: seq<Signal>, x: Signal)
    requires multiset(b)[x] >= 2
    ensures exists j, k :: 0 <= j < k < |b| && b[j] == x && b[k] == x
  {
    assert x in multiset(b);
    var j :| 0 <= j < |b| && b[j] == x;
    assert b == b[..j] + [x] + b[j + 1..];
    if x !in b[j + 1..] {
      var i :| 0 <= i < j && b[i] == x;
      assert b[i] == x && b[j] == x;
    } else {
      var k :| 0 <= k < |b[j + 1..]| && b[j + 1..][k] == x;
      assert b[j + 1 + k] == x;
    }
  }

  /** The multiplicity of each signal among the plain ones is its multiplicity among all, unless it is multiplexed. */
  lemma {:induction false} PlainCount(s: seq<Signal>, x: Signal)
    ensures multiset(Plain(s))[x] == if x.isMultiplexed then 0 else multiset(s)[x]
    decreases |s|
  {
    if s != [] {
      var init := s[..|s| - 1];
      PlainCount(init, x);
      assert s == init + [s[|s| - 1]];
    }
  }

  /** Reordering the signals reorders the plain ones alike. */
  lemma PlainPermutation(a: seq<Signal>, b: seq<Signal>)
    requires multiset(a) == multiset(b)
    ensures multiset(Plain(a)) == multiset(Plain(b))
  {
    forall x
      ensures multiset(Plain(a))[x] == multiset(Plain(b))[x]
    {
      PlainCount(a, x);
      PlainCount(b, x);
    }
  }
}
