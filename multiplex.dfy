/**
 * Multiplexed messages: find_multiplexor picks the one signal whose value
 * selects which other signals a frame carries, and multiplexor_switch sorts
 * the signals by switch value and groups them into the `case` arms of the
 * emitted `switch (o->...multiplexor)`.
 */
module Multiplex {
  import opened Signals
  import opened Sorting

  // ---------------------------------------------------------------------------
  // find_multiplexor

  /** The search result; a second multiplexor is a fatal schema error that stops generation. */
  datatype MuxSearch = NoMultiplexor | Found(index: nat) | Multiple

  method FindMultiplexor(sigs: seq<Signal>) returns (r: MuxSearch)
    ensures r.NoMultiplexor? <==> forall j :: 0 <= j < |sigs| ==> !sigs[j].isMultiplexor
    ensures r.Found? ==>
              r.index < |sigs| && sigs[r.index].isMultiplexor &&
              forall j :: 0 <= j < |sigs| && j != r.index ==> !sigs[j].isMultiplexor
    ensures r.Multiple? <==> TwoMultiplexors(sigs)
  {
    var multiplexor: Option<nat> := None;
    var i := 0;
    while i < |sigs|
      invariant 0 <= i <= |sigs|
      invariant multiplexor.None? ==> forall j :: 0 <= j < i ==> !sigs[j].isMultiplexor
      invariant multiplexor.Some? ==>
                  multiplexor.value < i && sigs[multiplexor.value].isMultiplexor &&
                  forall j :: 0 <= j < i && j != multiplexor.value ==> !sigs[j].isMultiplexor
    {
      if sigs[i].isMultiplexor {
        if multiplexor.Some? {
          return Multiple;
        }
        multiplexor := Some(i);
      }
      i := i + 1;
    }
    r := if multiplexor.Some? then Found(multiplexor.value) else NoMultiplexor;
  }

  /** More than one signal claims to be the multiplexor. */
  predicate TwoMultiplexors(sigs: seq<Signal>)
  {
    exists j, k :: 0 <= j < k < |sigs| && sigs[j].isMultiplexor && sigs[k].isMultiplexor
  }

  // ---------------------------------------------------------------------------
  // multiplexor_switch

  /** One `case value:` arm, emitting the signals at positions first .. end - 1 of the sorted array. */
  datatype Case = Case(value: u32, first: nat, end: nat)

  predicate InCase(c: Case, k: int)
  {
    c.first <= k < c.end
  }

  /** The end of the run of signals sharing s[i]'s switch value, scanning from j: the inner loop's final j. */
  function RunEnd(s: seq<Signal>, i: nat, j: nat): (e: nat)
    requires i < |s| && i <= j <= |s|
    ensures j <= e <= |s| && i < e
    ensures forall k :: j <= k < e ==> s[k].switchval == s[i].switchval
    ensures e == |s| || s[e].switchval != s[i].switchval
    decreases |s| - j
  {
    if j < |s| && s[i].switchval == s[j].switchval then RunEnd(s, i, j + 1) else j
  }

  /** The arms the outer loop emits from position i on: a multiplexed signal opens an arm that runs to the end of its run. */
  function CasesFrom(s: seq<Signal>, i: nat): seq<Case>
    requires i <= |s|
    decreases |s| - i
  {
    if i == |s| then []
    else if !s[i].isMultiplexed then CasesFrom(s, i + 1)
    else
      var e := RunEnd(s, i, i);
      [Case(s[i].switchval, i, e)] + CasesFrom(s, e)
  }

  function Cases(s: seq<Signal>): (cs: seq<Case>)
    ensures forall p :: 0 <= p < |cs| ==> cs[p].first < cs[p].end <= |s|
  {
    CasesShape(s, 0);
    CasesFrom(s, 0)
  }

  /**
   * multiplexor_switch: sorts the signals by switch value in place, then walks
   * them; a multiplexed signal at i opens an arm that takes every signal from i
   * to the end of its run of equal switch values, and the walk resumes after
   * the run (`i = j - 1` followed by the loop's `i++`).
   */
  method MultiplexorSwitch(sigs: array<Signal>) returns (cases: seq<Case>)
    modifies sigs
    ensures SortedBy(sigs[..], SwitchKey)
    ensures multiset(sigs[..]) == multiset(old(sigs[..]))
    ensures cases == Cases(sigs[..])
  {
    SortByKey(sigs, SwitchKey);
    ghost var s := sigs[..];
    cases := [];
    var i := 0;
    while i < sigs.Length
      invariant 0 <= i <= sigs.Length && sigs[..] == s
      invariant cases + CasesFrom(s, i) == Cases(s)
    {
      if sigs[i].isMultiplexed {
        var j := ScanRun(sigs, i);
        CasesOpen(s, i);
        cases := cases + [Case(sigs[i].switchval, i, j)];
        i := j - 1;
      }
      i := i + 1;
    }
  }

  /** multiplexor_switch's inner loop: j runs from i past every signal with s[i]'s switch value. */
  method ScanRun(sigs: array<Signal>, i: nat) returns (j: nat)
    requires i < sigs.Length
    ensures j == RunEnd(sigs[..], i, i)
  {
    j := i;
    while j < sigs.Length && sigs[i].switchval == sigs[j].switchval
      invariant i <= j <= sigs.Length
      invariant RunEnd(sigs[..], i, j) == RunEnd(sigs[..], i, i)
    {
      j := j + 1;
    }
  }

  /** A multiplexed signal at i opens the arm up to the end of its run; the walk goes on from there. */
  lemma CasesOpen(s: seq<Signal>, i: nat)
    requires i < |s| && s[i].isMultiplexed
    ensures CasesFrom(s, i) == [Case(s[i].switchval, i, RunEnd(s, i, i))] + CasesFrom(s, RunEnd(s, i, i))
  {
  }

  // ---------------------------------------------------------------------------
  // What the arms are.

  /** An arm: it starts at a multiplexed signal, every signal in it has the arm's value, and it ends where that value's run ends. */
  predicate ArmShape(s: seq<Signal>, c: Case)
  {
    c.first < c.end <= |s| && s[c.first].isMultiplexed && c.value == s[c.first].switchval
    && (forall k :: c.first <= k < c.end ==> s[k].switchval == c.value)
    && (c.end == |s| || s[c.end].switchval != c.value)
  }

  lemma {:induction false} CasesShape(s: seq<Signal>, i: nat)
    requires i <= |s|
    ensures forall p :: 0 <= p < |CasesFrom(s, i)| ==> ArmShape(s, CasesFrom(s, i)[p]) && i <= CasesFrom(s, i)[p].first
    decreases |s| - i
  {
    if i < |s| {
      if !s[i].isMultiplexed {
        CasesShape(s, i + 1);
      } else {
        var e := RunEnd(s, i, i);
        CasesShape(s, e);
      }
    }
  }

  /** Arms in order of position, without overlap, with strictly increasing values. */
  predicate ArmsOrdered(cs: seq<Case>)
  {
    forall p, q :: 0 <= p < q < |cs| ==> cs[p].end <= cs[q].first && cs[p].value < cs[q].value
  }

  /** The arms come in order of position, without overlap; over a sorted array their values strictly increase, so no two arms share a label. */
  lemma {:induction false} CasesOrdered(s: seq<Signal>, i: nat)
    requires i <= |s|
    requires SortedBy(s, SwitchKey)
    ensures ArmsOrdered(CasesFrom(s, i))
    decreases |s| - i
  {
    if i < |s| {
      if !s[i].isMultiplexed {
        assert CasesFrom(s, i) == CasesFrom(s, i + 1);
        CasesOrdered(s, i + 1);
      } else {
        var e := RunEnd(s, i, i);
        var head := Case(s[i].switchval, i, e);
        var tail := CasesFrom(s, e);
        CasesOrdered(s, e);
        CasesShape(s, e);
        assert CasesFrom(s, i) == [head] + tail;
        forall q | 0 <= q < |tail|
          ensures head.end <= tail[q].first && head.value < tail[q].value
        {
          var f := tail[q].first;
          assert ArmShape(s, tail[q]) && e <= f;
          assert e < |s| && s[e].switchval != s[i].switchval;
          assert SwitchKey(s[i]) <= SwitchKey(s[e]);
          if e < f {
            assert SwitchKey(s[e]) <= SwitchKey(s[f]);
          }
        }
        ArmsPrepend(head, tail);
      }
    }
  }

  lemma ArmsPrepend(head: Case, tail: seq<Case>)
    requires ArmsOrdered(tail)
    requires forall q :: 0 <= q < |tail| ==> head.end <= tail[q].first && head.value < tail[q].value
    ensures ArmsOrdered([head] + tail)
  {
    var cs := [head] + tail;
    forall p, q | 0 <= p < q < |cs|
      ensures cs[p].end <= cs[q].first && cs[p].value < cs[q].value
    {
      assert cs[q] == tail[q - 1];
      if p > 0 {
        assert cs[p] == tail[p - 1];
      }
    }
  }

  /** Every multiplexed signal at or after position i lies in some arm of cs. */
  predicate Covers(s: seq<Signal>, i: nat, cs: seq<Case>)
  {
    forall k :: i <= k < |s| && s[k].isMultiplexed ==> exists p :: 0 <= p < |cs| && InCase(cs[p], k)
  }

  /** Every multiplexed signal at or after position i lies in some arm. */
  lemma {:induction false} CasesCover(s: seq<Signal>, i: nat)
    requires i <= |s|
    ensures Covers(s, i, CasesFrom(s, i))
    decreases |s| - i
  {
    if i < |s| {
      if !s[i].isMultiplexed {
        assert CasesFrom(s, i) == CasesFrom(s, i + 1);
        CasesCover(s, i + 1);
      } else {
        var e := RunEnd(s, i, i);
        var cs := CasesFrom(s, i);
        var tail := CasesFrom(s, e);
        CasesCover(s, e);
        assert cs == [Case(s[i].switchval, i, e)] + tail;
        forall k | i <= k < |s| && s[k].isMultiplexed
          ensures exists p :: 0 <= p < |cs| && InCase(cs[p], k)
        {
          if k < e {
            assert InCase(cs[0], k);
          } else {
            var p :| 0 <= p < |tail| && InCase(tail[p], k);
            assert cs[p + 1] == tail[p];
          }
        }
      }
    }
  }

  /** Over the sorted array, every multiplexed signal is emitted in exactly one arm. */
  lemma ExactlyOneArm(s: seq<Signal>, k: nat)
    requires SortedBy(s, SwitchKey)
    requires k < |s| && s[k].isMultiplexed
    ensures exists p :: 0 <= p < |Cases(s)| && InCase(Cases(s)[p], k)
    ensures forall p, q :: 0 <= p < |Cases(s)| && 0 <= q < |Cases(s)| && InCase(Cases(s)[p], k) && InCase(Cases(s)[q], k) ==> p == q
  {
    CasesCover(s, 0);
    CasesOrdered(s, 0);
    var cs := Cases(s);
    forall p, q | 0 <= p < q < |cs|
      ensures !(InCase(cs[p], k) && InCase(cs[q], k))
    {
      assert cs[p].end <= cs[q].first;
    }
  }

  /**
   * Over the sorted array, each switch value carried by a multiplexed signal
   * gets exactly one arm, and the arm starts at the first multiplexed signal
   * with that value.
   */
  lemma OneArmPerValue(s: seq<Signal>, k: nat)
    requires SortedBy(s, SwitchKey)
    requires k < |s| && s[k].isMultiplexed
    ensures exists p :: 0 <= p < |Cases(s)| && Cases(s)[p].value == s[k].switchval
    ensures forall p, q ::
              (0 <= p < |Cases(s)| && 0 <= q < |Cases(s)| &&
               Cases(s)[p].value == s[k].switchval && Cases(s)[q].value == s[k].switchval) ==> p == q
    ensures forall p :: 0 <= p < |Cases(s)| && Cases(s)[p].value == s[k].switchval ==> Cases(s)[p].first <= k
  {
    var cs := Cases(s);
    var v := s[k].switchval;
    CasesCover(s, 0);
    CasesOrdered(s, 0);
    CasesShape(s, 0);
    var p :| 0 <= p < |cs| && InCase(cs[p], k);
    assert ArmShape(s, cs[p]);
    assert cs[p].value == v;
    forall q | 0 <= q < |cs| && q != p
      ensures cs[q].value != v
    {
      if q < p {
        assert cs[q].value < cs[p].value;
      } else {
        assert cs[p].value < cs[q].value;
      }
    }
  }

  /**
   * The arm does not test is_multiplexed: a signal that is not multiplexed but
   * shares the arm's switch value and sorts after the arm's first signal is
   * emitted inside the arm; one that sorts before it is not.
   */
  lemma PlainSignalInArm(a: Signal, b: Signal)
    requires a.isMultiplexed && !b.isMultiplexed && a.switchval == b.switchval
    ensures Cases([a, b]) == [Case(a.switchval, 0, 2)]
    ensures Cases([b, a]) == [Case(a.switchval, 1, 2)]
  {
    assert RunEnd([a, b], 0, 0) == 2;
    assert CasesFrom([a, b], 2) == [];
    assert RunEnd([b, a], 1, 1) == 2;
    assert CasesFrom([b, a], 2) == [];
    assert CasesFrom([b, a], 0) == CasesFrom([b, a], 1);
  }
}
