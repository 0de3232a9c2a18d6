/** Argument and return type profiling (profile_obj_type in interp_masm_ppc_64.cpp): one cell
    that records a klass and two status bits (TypeEntries in methodData.hpp). */
module TypeCell {
  import PpcMachine

  /** What is observed: null, or an object of some klass. */
  datatype Obj = Null | Of(klass: nat)

  /** Klass pointers are aligned, so their two low bits are free for the status. */
  predicate Aligned(o: Obj) { o.Of? ==> o.klass > 0 && o.klass % 4 == 0 }

  predicate NullSeen(v: nat) { v % 4 == 1 || v % 4 == 3 }   // null_seen is bit 0
  predicate Unknown(v: nat) { v % 4 >= 2 }                  // type_unknown is bit 1
  function KlassPart(v: nat): nat { v - v % 4 }             // type_klass_mask
  function TypePart(v: nat): nat { if NullSeen(v) then v - 1 else v }  // type_mask

  /** The cell with the given contents. */
  function Cell(klass: nat, nullSeen: bool, unknown: bool): nat {
    klass + (if nullSeen then 1 else 0) + (if unknown then 2 else 0)
  }

  /** The automaton: null is remembered; the first klass is kept; a different one is a conflict. */
  function Observe(v: nat, o: Obj): nat {
    if o.Null? then Cell(KlassPart(v), true, Unknown(v))
    else if TypePart(v) == 0 then Cell(o.klass, NullSeen(v), false)
    else if o.klass == KlassPart(v) then v
    else Cell(KlassPart(v), NullSeen(v), true)
  }

  lemma CellParts(klass: nat, nullSeen: bool, unknown: bool)
    requires klass % 4 == 0
    ensures var v := Cell(klass, nullSeen, unknown);
            KlassPart(v) == klass && NullSeen(v) == nullSeen && Unknown(v) == unknown
  {
  }

  lemma OrStatus(klass: nat, v: nat)
    requires klass % 2 == 0 && v < 2
    ensures PpcMachine.Or(klass, v) == klass + v
  {
    assert v == 1 && klass > 0 ==> PpcMachine.Or(klass / 2, 0) == klass / 2;
  }

  /** ori with one of the status bits. */
  function SetNullSeen(v: nat): nat { if NullSeen(v) then v else v + 1 }
  function SetUnknown(v: nat): nat { if Unknown(v) then v else v + 2 }

  lemma SetBits(v: nat)
    ensures KlassPart(v) % 4 == 0 && v == Cell(KlassPart(v), NullSeen(v), Unknown(v))
    ensures SetNullSeen(v) == Cell(KlassPart(v), true, Unknown(v))
    ensures SetUnknown(v) == Cell(KlassPart(v), NullSeen(v), true)
    ensures TypePart(v) == 0 ==> v < 2 && KlassPart(v) == 0 && v == Cell(0, NullSeen(v), false)
  {
  }

  /** One observation takes nothing back. */
  lemma ObserveMonotone(v: nat, o: Obj)
    requires Aligned(o)
    ensures var w := Observe(v, o);
            && (NullSeen(v) ==> NullSeen(w)) && (Unknown(v) ==> Unknown(w))
            && (KlassPart(v) != 0 ==> KlassPart(w) == KlassPart(v))
  {
    SetBits(v);
    if o.Null? {
      CellParts(KlassPart(v), true, Unknown(v));
    } else if TypePart(v) == 0 {
      CellParts(o.klass, NullSeen(v), false);
    } else {
      CellParts(KlassPart(v), NullSeen(v), true);
    }
  }

  class MethodData {
    var cell: nat

    /** The emitted code, register by register. The test that is meant to leave early when the
        profile is already unknown looks at the klass and not at the cell. */
    method ProfileObjType(obj: Obj)
      modifies this
      ensures Aligned(obj) ==> cell == Observe(old(cell), obj)
      ensures obj.Of? && Unknown(obj.klass) ==> cell == old(cell)
    {
      var tmp := cell;
      SetBits(tmp);
      var r0 := SetNullSeen(tmp);
      if obj.Of? {
        var klass := obj.klass;
        r0 := KlassPart(tmp);
        var cr1eq := r0 == klass;
        r0 := if Unknown(klass) then 2 else 0;
        var cr0eq := cr1eq || r0 != 0;
        if cr0eq {
          return;
        }
        r0 := TypePart(tmp);
        cr0eq := r0 == 0;
        r0 := PpcMachine.Or(klass, tmp);
        if !cr0eq {
          r0 := SetUnknown(tmp);
        } else if Aligned(obj) {
          OrStatus(klass, tmp);
        }
      }
      cell := r0;
    }
  }

  /** Leaving early once the cell is unknown, as the comment in the source has it. */
  function Intended(v: nat, o: Obj): nat {
    if o.Of? && (KlassPart(v) == o.klass || Unknown(v)) then v else Observe(v, o)
  }

  /** Since the later store is idempotent, the early exit makes no difference: for any cell. */
  lemma ExitIsRedundant(v: nat, o: Obj)
    requires Aligned(o)
    ensures Intended(v, o) == Observe(v, o)
  {
  }

  function Run(v: nat, objs: seq<Obj>): nat {
    if objs == [] then v else Observe(Run(v, objs[..|objs| - 1]), objs[|objs| - 1])
  }

  /** The klass of the first object, or 0. */
  function FirstKlass(objs: seq<Obj>): nat {
    if objs == [] then 0 else if objs[0].Of? then objs[0].klass else FirstKlass(objs[1..])
  }

  ghost predicate Conflict(objs: seq<Obj>) {
    exists i, j :: 0 <= i < j < |objs| && objs[i].Of? && objs[j].Of? && objs[i].klass != objs[j].klass
  }

  lemma {:induction false} FirstKlassSnoc(objs: seq<Obj>, o: Obj)
    requires forall x :: x in objs ==> Aligned(x)
    ensures FirstKlass(objs + [o]) == if FirstKlass(objs) != 0 || o.Null? then FirstKlass(objs) else o.klass
  {
    if objs != [] {
      assert objs[0] in objs && (objs + [o])[1..] == objs[1..] + [o];
      FirstKlassSnoc(objs[1..], o);
    }
  }

  lemma {:induction false} FirstKlassIs(objs: seq<Obj>)
    requires forall x :: x in objs ==> Aligned(x)
    ensures FirstKlass(objs) == 0 <==> forall i :: 0 <= i < |objs| ==> objs[i].Null?
    ensures FirstKlass(objs) % 4 == 0
    ensures FirstKlass(objs) != 0 ==> exists i :: 0 <= i < |objs| && objs[i] == Of(FirstKlass(objs))
  {
    if objs != [] {
      assert objs[0] in objs;
      FirstKlassIs(objs[1..]);
    }
  }

  /** Whole runs from an empty cell: what the three parts of the cell mean. */
  lemma {:induction false} CellExact(objs: seq<Obj>)
    requires forall x :: x in objs ==> Aligned(x)
    ensures Run(0, objs) == Cell(FirstKlass(objs), Null in objs, Conflict(objs))
    ensures Run(0, objs) == FirstKlass(objs) + (if Null in objs then 1 else 0) + if Conflict(objs) then 2 else 0
  {
    if objs != [] {
      var before, o := objs[..|objs| - 1], objs[|objs| - 1];
      assert objs == before + [o];
      CellExact(before);
      FirstKlassSnoc(before, o);
      FirstKlassIs(before);
      ConflictStep(before, o);
      CellParts(FirstKlass(before), Null in before, Conflict(before));
    }
  }

  lemma ConflictStep(objs: seq<Obj>, o: Obj)
    requires (forall x :: x in objs ==> Aligned(x)) && Aligned(o)
    ensures Conflict(objs + [o]) <==> Conflict(objs) || (o.Of? && FirstKlass(objs) !in {0, o.klass})
  {
    FirstKlassIs(objs);
    var all := objs + [o];
    if Conflict(objs) {
      var i, j :| 0 <= i < j < |objs| && objs[i].Of? && objs[j].Of? && objs[i].klass != objs[j].klass;
      assert all[i] == objs[i] && all[j] == objs[j];
    } else if o.Of? && FirstKlass(objs) !in {0, o.klass} {
      var i :| 0 <= i < |objs| && objs[i] == Of(FirstKlass(objs));
      assert all[i] == objs[i] && all[|objs|] == o;
    }
  }

  /** Along every run, from any cell, neither status bit is ever taken back and a recorded klass
      stays. */
  lemma {:induction false} RunMonotone(v: nat, objs: seq<Obj>)
    requires forall x :: x in objs ==> Aligned(x)
    ensures NullSeen(v) ==> NullSeen(Run(v, objs))
    ensures Unknown(v) ==> Unknown(Run(v, objs))
    ensures KlassPart(v) != 0 ==> KlassPart(Run(v, objs)) == KlassPart(v)
  {
    if objs != [] {
      var last := |objs| - 1;
      assert objs[last] in objs;
      RunMonotone(v, objs[..last]);
      ObserveMonotone(Run(v, objs[..last]), objs[last]);
    }
  }
}
