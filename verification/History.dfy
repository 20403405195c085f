/** The undo log of utils/history.go: changes executed, rolled back and sought by height. */
module History {
  import opened Common

  const TWO_32 := 0x1_0000_0000

  /** A change and its rollback, as functions on the state they act on. */
  datatype Change<!S> = Change(execute: S -> S, rollback: S -> S)

  datatype HeightChanges<!S> = HeightChanges(height: nat, changes: seq<Change<S>>)

  // ---------------------------------------------------------------- the changes of one height

  function Execute<S>(cs: seq<Change<S>>, s: S): S {
    if cs == [] then s else Execute(cs[1..], cs[0].execute(s))
  }

  /** The changes of one height are rolled back in the order they were executed. */
  function Rollback<S>(cs: seq<Change<S>>, s: S): S {
    if cs == [] then s else Rollback(cs[1..], cs[0].rollback(s))
  }

  /** The same changes executed last to first. */
  function ExecuteReversed<S>(cs: seq<Change<S>>, s: S): S {
    if cs == [] then s else cs[0].execute(ExecuteReversed(cs[1..], s))
  }

  /** Each rollback and its execute are inverse to each other. */
  ghost predicate Inverse<S(!new)>(c: Change<S>) {
    forall s :: c.rollback(c.execute(s)) == s && c.execute(c.rollback(s)) == s
  }

  ghost predicate AllInverse<S(!new)>(cs: seq<Change<S>>) {
    forall i :: 0 <= i < |cs| ==> Inverse(cs[i])
  }

  /** Rolling a height back undoes executing it, from the state it was executed in. */
  ghost predicate Undoes<S>(cs: seq<Change<S>>, s: S) {
    Rollback(cs, Execute(cs, s)) == s
  }

  /** It does so from every state. */
  ghost predicate Reversible<S(!new)>(cs: seq<Change<S>>) {
    forall s :: Undoes(cs, s)
  }

  ghost predicate OrderFree<S(!new)>(cs: seq<Change<S>>) {
    forall s :: Execute(cs, s) == ExecuteReversed(cs, s)
  }

  ghost predicate Commute<S(!new)>(c: Change<S>, d: Change<S>) {
    forall s :: c.execute(d.execute(s)) == d.execute(c.execute(s))
  }

  lemma {:induction false} RollbackOfReversed<S(!new)>(cs: seq<Change<S>>, s: S)
    requires AllInverse(cs)
    ensures Rollback(cs, ExecuteReversed(cs, s)) == s
    decreases |cs|
  {
    if cs != [] {
      assert Inverse(cs[0]);
      assert AllInverse(cs[1..]) by {
        forall i | 0 <= i < |cs| - 1 ensures Inverse(cs[1..][i]) { assert cs[1..][i] == cs[i + 1]; }
      }
      RollbackOfReversed(cs[1..], s);
    }
  }

  lemma {:induction false} RollbackInjective<S(!new)>(cs: seq<Change<S>>, s: S, t: S)
    requires AllInverse(cs) && Rollback(cs, s) == Rollback(cs, t)
    ensures s == t
    decreases |cs|
  {
    if cs != [] {
      var c := cs[0];
      assert AllInverse(cs[1..]) by {
        forall i | 0 <= i < |cs| - 1 ensures Inverse(cs[1..][i]) { assert cs[1..][i] == cs[i + 1]; }
      }
      RollbackInjective(cs[1..], c.rollback(s), c.rollback(t));
      assert Inverse(c);
      assert s == c.execute(c.rollback(s)) && t == c.execute(c.rollback(t));
    }
  }

  /** Rolling back front to back restores the state exactly when the order of the height's changes
      does not matter: executing them last to first does the same. */
  lemma ForwardRollbackExact<S(!new)>(cs: seq<Change<S>>)
    requires AllInverse(cs)
    ensures Reversible(cs) <==> OrderFree(cs)
  {
    forall s: S
      ensures Rollback(cs, ExecuteReversed(cs, s)) == s
    {
      RollbackOfReversed(cs, s);
    }
    if Reversible(cs) {
      forall s: S
        ensures Execute(cs, s) == ExecuteReversed(cs, s)
      {
        assert Undoes(cs, s);
        RollbackInjective(cs, Execute(cs, s), ExecuteReversed(cs, s));
      }
    }
  }

  /** A change that commutes with all the others may as well run after them. */
  lemma {:induction false} ExecuteLast<S(!new)>(cs: seq<Change<S>>, c: Change<S>, s: S)
    requires forall i :: 0 <= i < |cs| ==> Commute(c, cs[i])
    ensures Execute(cs, c.execute(s)) == c.execute(Execute(cs, s))
    decreases |cs|
  {
    if cs != [] {
      assert Commute(c, cs[0]);
      assert cs[0].execute(c.execute(s)) == c.execute(cs[0].execute(s));
      forall i | 0 <= i < |cs| - 1 ensures Commute(c, cs[1..][i]) { assert cs[1..][i] == cs[i + 1]; }
      ExecuteLast(cs[1..], c, cs[0].execute(s));
    }
  }

  /** Changes that commute pairwise are order free. */
  lemma {:induction false} CommutingOrderFree<S(!new)>(cs: seq<Change<S>>)
    requires forall i, j :: 0 <= i < j < |cs| ==> Commute(cs[i], cs[j])
    ensures OrderFree(cs)
    decreases |cs|
  {
    if cs != [] {
      var rest := cs[1..];
      forall i, j | 0 <= i < j < |rest|
        ensures Commute(rest[i], rest[j])
      {
        assert rest[i] == cs[i + 1] && rest[j] == cs[j + 1];
      }
      CommutingOrderFree(rest);
      forall s: S
        ensures Execute(cs, s) == ExecuteReversed(cs, s)
      {
        forall i | 0 <= i < |rest| ensures Commute(cs[0], rest[i]) { assert rest[i] == cs[i + 1]; }
        ExecuteLast(rest, cs[0], s);
      }
    }
  }

  lemma TwoChanges<S>(c: Change<S>, d: Change<S>, s: S)
    ensures Execute([c, d], s) == d.execute(c.execute(s))
    ensures Rollback([c, d], s) == d.rollback(c.rollback(s))
  {
    assert [c, d][1..] == [d];
    OneChange(d, c.execute(s));
    OneChange(d, c.rollback(s));
  }

  lemma OneChange<S>(c: Change<S>, s: S)
    ensures Execute([c], s) == c.execute(s) && Rollback([c], s) == c.rollback(s)
  {
    assert [c][1..] == [];
    assert Execute<S>([], c.execute(s)) == c.execute(s);
    assert Rollback<S>([], c.rollback(s)) == c.rollback(s);
  }

  /** Adding one and negating, each with its exact inverse, are not undone at one height. */
  lemma ForwardRollbackCanFail()
    ensures exists cs: seq<Change<int>> :: AllInverse(cs) && !Reversible(cs)
  {
    var inc := Change((x: int) => x + 1, (x: int) => x - 1);
    var neg := Change((x: int) => -x, (x: int) => -x);
    assert Inverse(inc) && Inverse(neg);
    TwoChanges(inc, neg, 0);
    TwoChanges(inc, neg, -1);
    assert !Undoes([inc, neg], 0);
    assert AllInverse([inc, neg]) && !Reversible([inc, neg]);
  }

  // ---------------------------------------------------------------- changes that restore what they found

  /** Each rollback undoes its change in the state the change ran in, as one does that restores a
      remembered value. */
  ghost predicate StepsUndone<S>(cs: seq<Change<S>>, s: S) {
    cs == [] || (cs[0].rollback(cs[0].execute(s)) == s && StepsUndone(cs[1..], cs[0].execute(s)))
  }

  /** The rollbacks run last to first. */
  function RollbackReversed<S>(cs: seq<Change<S>>, s: S): S {
    if cs == [] then s else cs[0].rollback(RollbackReversed(cs[1..], s))
  }

  lemma {:induction false} ReversedUndoes<S>(cs: seq<Change<S>>, s: S)
    requires StepsUndone(cs, s)
    ensures RollbackReversed(cs, Execute(cs, s)) == s
    decreases |cs|
  {
    if cs != [] {
      ReversedUndoes(cs[1..], cs[0].execute(s));
    }
  }

  /** Then a height is undone exactly when the order of its rollbacks does not matter in the state it
      left. */
  lemma LocalRollbackExact<S>(cs: seq<Change<S>>, s: S)
    requires StepsUndone(cs, s)
    ensures Undoes(cs, s) <==> Rollback(cs, Execute(cs, s)) == RollbackReversed(cs, Execute(cs, s))
  {
    ReversedUndoes(cs, s);
  }

  ghost predicate RollbacksCommute<S(!new)>(c: Change<S>, d: Change<S>) {
    forall s :: c.rollback(d.rollback(s)) == d.rollback(c.rollback(s))
  }

  lemma {:induction false} RollbackLast<S(!new)>(cs: seq<Change<S>>, c: Change<S>, s: S)
    requires forall i :: 0 <= i < |cs| ==> RollbacksCommute(c, cs[i])
    ensures Rollback(cs, c.rollback(s)) == c.rollback(Rollback(cs, s))
    decreases |cs|
  {
    if cs != [] {
      assert RollbacksCommute(c, cs[0]);
      assert cs[0].rollback(c.rollback(s)) == c.rollback(cs[0].rollback(s));
      forall i | 0 <= i < |cs| - 1 ensures RollbacksCommute(c, cs[1..][i]) { assert cs[1..][i] == cs[i + 1]; }
      RollbackLast(cs[1..], c, cs[0].rollback(s));
    }
  }

  lemma {:induction false} CommutingRollbacks<S(!new)>(cs: seq<Change<S>>, s: S)
    requires forall i, j :: 0 <= i < j < |cs| ==> RollbacksCommute(cs[i], cs[j])
    ensures Rollback(cs, s) == RollbackReversed(cs, s)
    decreases |cs|
  {
    if cs != [] {
      var rest := cs[1..];
      forall i, j | 0 <= i < j < |rest|
        ensures RollbacksCommute(rest[i], rest[j])
      {
        assert rest[i] == cs[i + 1] && rest[j] == cs[j + 1];
      }
      CommutingRollbacks(rest, s);
      forall i | 0 <= i < |rest| ensures RollbacksCommute(cs[0], rest[i]) { assert rest[i] == cs[i + 1]; }
      RollbackLast(rest, cs[0], s);
    }
  }

  /** Rollbacks that commute, as those of different fields do, undo the height. */
  lemma CommutingUndone<S(!new)>(cs: seq<Change<S>>, s: S)
    requires StepsUndone(cs, s) && forall i, j :: 0 <= i < j < |cs| ==> RollbacksCommute(cs[i], cs[j])
    ensures Undoes(cs, s)
  {
    CommutingRollbacks(cs, Execute(cs, s));
    LocalRollbackExact(cs, s);
  }

  /** Successive writes to one field, each restoring the value it found. */
  function Writes<S>(s: S, vs: seq<S>): seq<Change<S>> {
    if vs == [] then [] else [Write(s, vs[0])] + Writes(vs[0], vs[1..])
  }

  function Write<S>(found: S, v: S): Change<S> {
    Change((_: S) => v, (_: S) => found)
  }

  lemma {:induction false} WritesUndoneSingly<S>(s: S, vs: seq<S>)
    ensures StepsUndone(Writes(s, vs), s)
    decreases |vs|
  {
    if vs != [] {
      assert Writes(s, vs)[1..] == Writes(vs[0], vs[1..]);
      WritesUndoneSingly(vs[0], vs[1..]);
    }
  }

  lemma RollbackStep<S>(c: Change<S>, cs: seq<Change<S>>, t: S)
    ensures Rollback([c] + cs, t) == Rollback(cs, c.rollback(t)) && Rollback<S>([], t) == t
  {
    assert ([c] + cs)[1..] == cs;
  }

  lemma {:induction false} WritesRolledBack<S>(s: S, vs: seq<S>, t: S)
    ensures Rollback(Writes(s, vs), t) == if vs == [] then t else if |vs| == 1 then s else vs[|vs| - 2]
    decreases |vs|
  {
    hide Rollback;
    if vs == [] {
      RollbackStep(Write(s, t), [], t);
    } else {
      var rest := vs[1..];
      RollbackStep(Write(s, vs[0]), Writes(vs[0], rest), t);
      WritesRolledBack(vs[0], rest, s);
    }
  }

  /** A height that writes one field more than once is undone exactly when the last write but one had
      put back the value found first: front to back, the last rollback wins. */
  lemma WritesUndoneExactly<S>(s: S, vs: seq<S>)
    ensures StepsUndone(Writes(s, vs), s)
    ensures Undoes(Writes(s, vs), s) <==> |vs| <= 1 || vs[|vs| - 2] == s
  {
    WritesUndoneSingly(s, vs);
    WritesRolledBack(s, vs, Execute(Writes(s, vs), s));
  }

  /** Setting a flag and clearing it again is undone where the flag was clear, not everywhere. */
  lemma UndoneWhereItRan()
    ensures Undoes(Writes(false, [true]), false) && !Reversible(Writes(false, [true]))
  {
    WritesUndoneExactly(false, [true]);
    WritesRolledBack(false, [true], Execute(Writes(false, [true]), true));
    assert !Undoes(Writes(false, [true]), true);
  }

  // ---------------------------------------------------------------- changes of single fields

  function At<F, V>(m: map<F, V>, f: F): Option<V> {
    if f in m then Some(m[f]) else None
  }

  /** Writes or deletes a field. */
  function Put<F, V>(m: map<F, V>, f: F, v: Option<V>): map<F, V> {
    match v
    case Some(x) => m[f := x]
    case None => m - {f}
  }

  /** A change of one field of the state; a field that is absent holds None. */
  datatype Edit<F, !V> = Edit(field: F, change: Change<Option<V>>)

  function Lift<F, V>(e: Edit<F, V>): Change<map<F, V>> {
    Change((m: map<F, V>) => Put(m, e.field, e.change.execute(At(m, e.field))),
           (m: map<F, V>) => Put(m, e.field, e.change.rollback(At(m, e.field))))
  }

  lemma PutAt<F, V>(m: map<F, V>, f: F, v: Option<V>, g: F)
    ensures At(Put(m, f, v), g) == if g == f then v else At(m, g)
  {
  }

  lemma LiftAt<F, V>(e: Edit<F, V>, m: map<F, V>, f: F)
    ensures At(Lift(e).execute(m), f) == if f == e.field then e.change.execute(At(m, f)) else At(m, f)
    ensures At(Lift(e).rollback(m), f) == if f == e.field then e.change.rollback(At(m, f)) else At(m, f)
  {
    PutAt(m, e.field, e.change.execute(At(m, e.field)), f);
    PutAt(m, e.field, e.change.rollback(At(m, e.field)), f);
  }

  function Lifted<F, V>(es: seq<Edit<F, V>>): seq<Change<map<F, V>>> {
    if es == [] then [] else [Lift(es[0])] + Lifted(es[1..])
  }

  /** The changes of one field, in order. */
  function OnField<F(==), V>(es: seq<Edit<F, V>>, f: F): seq<Change<Option<V>>> {
    if es == [] then []
    else if es[0].field == f then [es[0].change] + OnField(es[1..], f)
    else OnField(es[1..], f)
  }

  /** What a field goes through is what its own changes do to it. */
  lemma {:induction false} FieldRuns<F, V>(es: seq<Edit<F, V>>, m: map<F, V>, f: F)
    ensures At(Execute(Lifted(es), m), f) == Execute(OnField(es, f), At(m, f))
    ensures At(Rollback(Lifted(es), m), f) == Rollback(OnField(es, f), At(m, f))
    decreases |es|
  {
    hide At, Lift;
    if es != [] {
      var c := Lift(es[0]);
      assert Lifted(es)[1..] == Lifted(es[1..]) && Lifted(es)[0] == c;
      LiftAt(es[0], m, f);
      FieldRuns(es[1..], c.execute(m), f);
      FieldRuns(es[1..], c.rollback(m), f);
      if es[0].field == f {
        assert OnField(es, f)[1..] == OnField(es[1..], f);
      }
    }
  }

  lemma SameFields<F(!new), V>(a: map<F, V>, b: map<F, V>)
    ensures a == b <==> forall f :: At(a, f) == At(b, f)
  {
    if forall f :: At(a, f) == At(b, f) {
      assert forall f :: f in a <==> At(a, f).Some?;
      assert forall f :: f in b <==> At(b, f).Some?;
      forall f | f in a
        ensures f in b && a[f] == b[f]
      {
        assert At(a, f) == At(b, f);
      }
    }
  }

  /** A height is undone exactly when, for each field by itself, the changes of that field are. */
  lemma FieldwiseExactly<F(!new), V>(es: seq<Edit<F, V>>, s: map<F, V>)
    ensures Undoes(Lifted(es), s) <==> forall f :: Undoes(OnField(es, f), At(s, f))
  {
    hide Execute, Rollback, OnField, Lifted, At;
    var done := Execute(Lifted(es), s);
    var back := Rollback(Lifted(es), done);
    SameFields(back, s);
    forall f
      ensures At(back, f) == Rollback(OnField(es, f), Execute(OnField(es, f), At(s, f)))
    {
      FieldRuns(es, s, f);
      FieldRuns(es, done, f);
    }
    if Undoes(Lifted(es), s) {
      forall f
        ensures Undoes(OnField(es, f), At(s, f))
      {
        assert At(back, f) == At(s, f);
      }
    }
    if forall f :: Undoes(OnField(es, f), At(s, f)) {
      forall f
        ensures At(back, f) == At(s, f)
      {
        assert Undoes(OnField(es, f), At(s, f));
      }
    }
  }

  /** The values written to a field, in order. */
  function ValuesOf<F(==), V>(ws: seq<(F, Option<V>)>, f: F): seq<Option<V>> {
    if ws == [] then []
    else if ws[0].0 == f then [ws[0].1] + ValuesOf(ws[1..], f)
    else ValuesOf(ws[1..], f)
  }

  /** Successive writes to any fields, each restoring the value it found in its own. */
  function FieldWrites<F(==), V>(s: map<F, V>, ws: seq<(F, Option<V>)>): seq<Edit<F, V>>
    decreases |ws|
  {
    if ws == [] then []
    else
      var (f, v) := ws[0];
      [Edit(f, Write(At(s, f), v))] + FieldWrites(Put(s, f, v), ws[1..])
  }

  lemma {:induction false} FieldWritesOnField<F, V>(s: map<F, V>, ws: seq<(F, Option<V>)>, f: F)
    ensures OnField(FieldWrites(s, ws), f) == Writes(At(s, f), ValuesOf(ws, f))
    decreases |ws|
  {
    if ws != [] {
      var (g, v) := ws[0];
      assert FieldWrites(s, ws)[1..] == FieldWrites(Put(s, g, v), ws[1..]);
      FieldWritesOnField(Put(s, g, v), ws[1..], f);
      if g == f {
        assert ValuesOf(ws, f)[1..] == ValuesOf(ws[1..], f);
      }
    }
  }

  /** A height of such writes is undone exactly when every field written more than once had its first
      value back by its last write but one. */
  lemma FieldWritesUndoneExactly<F(!new), V>(s: map<F, V>, ws: seq<(F, Option<V>)>)
    ensures Undoes(Lifted(FieldWrites(s, ws)), s) <==>
            forall f :: var vs := ValuesOf(ws, f); |vs| <= 1 || vs[|vs| - 2] == At(s, f)
  {
    hide Execute, Rollback, OnField, Lifted, At, ValuesOf, FieldWrites, Writes, StepsUndone, Undoes;
    var es := FieldWrites(s, ws);
    FieldwiseExactly(es, s);
    forall f
      ensures Undoes(OnField(es, f), At(s, f)) <==>
              var vs := ValuesOf(ws, f); |vs| <= 1 || vs[|vs| - 2] == At(s, f)
    {
      FieldWritesOnField(s, ws, f);
      WritesUndoneExactly(At(s, f), ValuesOf(ws, f));
    }
  }

  // ---------------------------------------------------------------- changes that restore a remembered value

  /** Updates a field in any way; the rollback puts back a value remembered earlier. */
  datatype Restoring<F, !V> = Restoring(field: F, update: Option<V> -> Option<V>, remembered: Option<V>)

  function EditOf<F, V>(r: Restoring<F, V>): Edit<F, V> {
    Edit(r.field, Change(r.update, (_: Option<V>) => r.remembered))
  }

  function Restorings<F, V>(rs: seq<Restoring<F, V>>): seq<Change<map<F, V>>> {
    if rs == [] then [] else [Lift(EditOf(rs[0]))] + Restorings(rs[1..])
  }

  predicate LastOnField<F(==), V>(rs: seq<Restoring<F, V>>, i: nat)
    requires i < |rs|
  {
    forall j :: i < j < |rs| ==> rs[j].field != rs[i].field
  }

  lemma {:induction false} Untouched<F, V>(rs: seq<Restoring<F, V>>, m: map<F, V>, f: F)
    requires forall i :: 0 <= i < |rs| ==> rs[i].field != f
    ensures At(Execute(Restorings(rs), m), f) == At(Rollback(Restorings(rs), m), f) == At(m, f)
    decreases |rs|
  {
    hide At, Lift;
    if rs != [] {
      var c := Lift(EditOf(rs[0]));
      LiftAt(EditOf(rs[0]), m, f);
      assert Restorings(rs)[1..] == Restorings(rs[1..]);
      Untouched(rs[1..], c.execute(m), f);
      Untouched(rs[1..], c.rollback(m), f);
    }
  }

  /** The last rollback of a field wins. */
  lemma {:induction false} LastRestored<F, V>(rs: seq<Restoring<F, V>>, m: map<F, V>, i: nat)
    requires i < |rs| && LastOnField(rs, i)
    ensures At(Rollback(Restorings(rs), m), rs[i].field) == rs[i].remembered
    decreases |rs|
  {
    hide At, Lift;
    var c, rest := Lift(EditOf(rs[0])), rs[1..];
    LiftAt(EditOf(rs[0]), m, rs[0].field);
    assert Restorings(rs)[1..] == Restorings(rest);
    if i == 0 {
      Untouched(rest, c.rollback(m), rs[0].field);
    } else {
      LastRestored(rest, c.rollback(m), i - 1);
    }
  }

  lemma {:induction false} SomeLast<F, V>(rs: seq<Restoring<F, V>>, k: nat) returns (i: nat)
    requires k < |rs|
    ensures i < |rs| && LastOnField(rs, i) && rs[i].field == rs[k].field
    decreases |rs| - k
  {
    if LastOnField(rs, k) {
      i := k;
    } else {
      var j :| k < j < |rs| && rs[j].field == rs[k].field;
      i := SomeLast(rs, j);
    }
  }

  /** Whatever the updates do, such a height is undone exactly when for every field the value its last
      change remembered is the value from before the height. */
  lemma RestoredExactly<F(!new), V>(rs: seq<Restoring<F, V>>, s: map<F, V>)
    ensures Undoes(Restorings(rs), s) <==>
            forall i :: 0 <= i < |rs| && LastOnField(rs, i) ==> rs[i].remembered == At(s, rs[i].field)
  {
    hide Execute, Rollback, Restorings, At, LastOnField;
    var done := Execute(Restorings(rs), s);
    var back := Rollback(Restorings(rs), done);
    SameFields(back, s);
    forall i | 0 <= i < |rs| && LastOnField(rs, i)
      ensures At(back, rs[i].field) == rs[i].remembered
    {
      LastRestored(rs, done, i);
    }
    if forall i :: 0 <= i < |rs| && LastOnField(rs, i) ==> rs[i].remembered == At(s, rs[i].field) {
      forall f
        ensures At(back, f) == At(s, f)
      {
        if k :| 0 <= k < |rs| && rs[k].field == f {
          var i := SomeLast(rs, k);
        } else {
          Untouched(rs, s, f);
          Untouched(rs, done, f);
        }
      }
    }
  }

  /** So changes that all remembered their field before the height began are undone, in any number. */
  lemma RememberedBefore<F(!new), V>(rs: seq<Restoring<F, V>>, s: map<F, V>)
    requires forall i :: 0 <= i < |rs| ==> rs[i].remembered == At(s, rs[i].field)
    ensures Undoes(Restorings(rs), s)
  {
    hide Undoes, Restorings;
    RestoredExactly(rs, s);
  }

  // ---------------------------------------------------------------- the heights of a history

  /** The state after all entries, oldest first. */
  function ExecuteAll<S>(hs: seq<HeightChanges<S>>, s: S): S {
    if hs == [] then s else Execute(hs[|hs| - 1].changes, ExecuteAll(hs[..|hs| - 1], s))
  }

  /** Rolls back the newest entries, newest first. */
  function UndoLast<S>(hs: seq<HeightChanges<S>>, count: nat, s: S): S
    requires count <= |hs|
  {
    if count == 0 then s else UndoLast(hs[..|hs| - 1], count - 1, Rollback(hs[|hs| - 1].changes, s))
  }

  /** Each entry is undone by its rollback in the state that the entries before it made. */
  ghost predicate Along<S>(hs: seq<HeightChanges<S>>, base: S) {
    forall i :: 0 <= i < |hs| ==> Undoes(hs[i].changes, ExecuteAll(hs[..i], base))
  }

  predicate Sorted<S>(hs: seq<HeightChanges<S>>) {
    forall i, j :: 0 <= i < j < |hs| ==> hs[i].height <= hs[j].height
  }

  /** Undoing the newest entries leaves the state the others made. */
  lemma {:induction false} UndoLastRestores<S>(hs: seq<HeightChanges<S>>, count: nat, s: S)
    requires Along(hs, s) && count <= |hs|
    ensures UndoLast(hs, count, ExecuteAll(hs, s)) == ExecuteAll(hs[..|hs| - count], s)
    decreases count
  {
    hide Execute, Rollback, Along;
    assert hs[..|hs|] == hs;
    if count > 0 {
      var rest := hs[..|hs| - 1];
      UndoOne(hs, |hs| - 1, s);
      AlongPrefix(hs, |hs| - 1, s);
      UndoLastRestores(rest, count - 1, s);
      assert rest[..|rest| - (count - 1)] == hs[..|hs| - count];
    }
  }

  lemma UndoOne<S>(hs: seq<HeightChanges<S>>, i: nat, base: S)
    requires Along(hs, base) && i < |hs|
    ensures Rollback(hs[i].changes, ExecuteAll(hs[..i + 1], base)) == ExecuteAll(hs[..i], base)
  {
    hide Execute, Rollback;
    assert hs[..i + 1][..i] == hs[..i];
    assert Undoes(hs[i].changes, ExecuteAll(hs[..i], base));
  }

  lemma AlongPrefix<S>(hs: seq<HeightChanges<S>>, k: nat, base: S)
    requires Along(hs, base) && k <= |hs|
    ensures Along(hs[..k], base)
  {
    hide ExecuteAll, Undoes;
    forall i | 0 <= i < k
      ensures Undoes(hs[..k][i].changes, ExecuteAll(hs[..k][..i], base))
    {
      assert hs[..k][..i] == hs[..i];
      assert hs[..k][i] == hs[i];
    }
  }

  lemma AlongSuffix<S>(hs: seq<HeightChanges<S>>, k: nat, base: S)
    requires Along(hs, base) && k <= |hs|
    ensures Along(hs[k..], ExecuteAll(hs[..k], base))
  {
    hide ExecuteAll, Undoes;
    var q := hs[k..];
    forall i | 0 <= i < |q|
      ensures Undoes(q[i].changes, ExecuteAll(q[..i], ExecuteAll(hs[..k], base)))
    {
      var r := hs[..k + i];
      ExecuteAllSplit(r, k, base);
      assert r[..k] == hs[..k] && r[k..] == q[..i];
      assert q[i] == hs[k + i];
    }
  }

  lemma AlongAppend<S>(hs: seq<HeightChanges<S>>, hc: HeightChanges<S>, base: S)
    requires Along(hs, base) && Undoes(hc.changes, ExecuteAll(hs, base))
    ensures Along(hs + [hc], base)
  {
    hide ExecuteAll, Undoes;
    var more := hs + [hc];
    forall i | 0 <= i < |more|
      ensures Undoes(more[i].changes, ExecuteAll(more[..i], base))
    {
      if i < |hs| {
        assert more[..i] == hs[..i] && more[i] == hs[i];
      } else {
        assert more[..i] == hs;
      }
    }
  }

  lemma {:induction false} ExecuteAllSplit<S>(hs: seq<HeightChanges<S>>, k: nat, s: S)
    requires k <= |hs|
    ensures ExecuteAll(hs, s) == ExecuteAll(hs[k..], ExecuteAll(hs[..k], s))
    decreases |hs|
  {
    if k == |hs| {
      assert hs[..k] == hs && hs[k..] == [];
    } else {
      var rest := hs[..|hs| - 1];
      ExecuteAllSplit(rest, k, s);
      assert rest[..k] == hs[..k];
      assert rest[k..] == hs[k..|hs| - 1];
      assert hs[k..][..|hs| - k - 1] == hs[k..|hs| - 1];
    }
  }

  function HeightsOf<S>(hs: seq<HeightChanges<S>>): set<nat> {
    set i | 0 <= i < |hs| :: hs[i].height
  }

  /** The number of leading entries at or below a height, in a sorted history. */
  function UpTo<S>(hs: seq<HeightChanges<S>>, h: nat): (k: nat)
    ensures k <= |hs|
    ensures Sorted(hs) ==> (forall i :: 0 <= i < k ==> hs[i].height <= h)
    ensures forall i :: k <= i < |hs| ==> hs[i].height > h
  {
    if hs == [] || hs[|hs| - 1].height <= h then |hs| else UpTo(hs[..|hs| - 1], h)
  }

  /** The entry is the last one of its height. */
  predicate LastAt<S>(hs: seq<HeightChanges<S>>, i: nat)
    requires i < |hs|
  {
    i + 1 < |hs| ==> hs[i].height < hs[i + 1].height
  }

  /** The snapshot of each retained height is the state its last entry made. */
  ghost predicate Snapshots<S>(hs: seq<HeightChanges<S>>, base: S, snapshots: map<nat, S>) {
    forall i :: 0 <= i < |hs| && LastAt(hs, i) ==>
      hs[i].height in snapshots && snapshots[hs[i].height] == ExecuteAll(hs[..i + 1], base)
  }

  lemma SnapshotsOfPrefix<S>(hs: seq<HeightChanges<S>>, base: S, snapshots: map<nat, S>, k: nat)
    requires Snapshots(hs, base, snapshots)
    requires k <= |hs| && (0 < k < |hs| ==> hs[k - 1].height < hs[k].height)
    ensures Snapshots(hs[..k], base, snapshots)
  {
    hide ExecuteAll;
    var p := hs[..k];
    forall i | 0 <= i < |p| && LastAt(p, i)
      ensures p[i].height in snapshots && snapshots[p[i].height] == ExecuteAll(p[..i + 1], base)
    {
      assert LastAt(hs, i);
      assert p[..i + 1] == hs[..i + 1];
    }
  }

  lemma SnapshotsOfSuffix<S>(hs: seq<HeightChanges<S>>, base: S, snapshots: map<nat, S>, k: nat)
    requires Snapshots(hs, base, snapshots) && k <= |hs|
    ensures Snapshots(hs[k..], ExecuteAll(hs[..k], base), snapshots)
  {
    var q := hs[k..];
    forall i | 0 <= i < |q| && LastAt(q, i)
      ensures q[i].height in snapshots && snapshots[q[i].height] == ExecuteAll(q[..i + 1], ExecuteAll(hs[..k], base))
    {
      assert LastAt(hs, k + i);
      var r := hs[..k + i + 1];
      ExecuteAllSplit(r, k, base);
      assert r[..k] == hs[..k] && r[k..] == q[..i + 1];
    }
  }

  lemma SnapshotsAppend<S>(hs: seq<HeightChanges<S>>, base: S, snapshots: map<nat, S>, hc: HeightChanges<S>)
    requires Snapshots(hs, base, snapshots) && Sorted(hs + [hc])
    ensures Snapshots(hs + [hc], base, snapshots[hc.height := ExecuteAll(hs + [hc], base)])
  {
    var more := hs + [hc];
    var snaps := snapshots[hc.height := ExecuteAll(more, base)];
    forall i | 0 <= i < |more| && LastAt(more, i)
      ensures more[i].height in snaps && snaps[more[i].height] == ExecuteAll(more[..i + 1], base)
    {
      if i < |hs| {
        assert LastAt(hs, i);
        assert more[..i + 1] == hs[..i + 1];
        assert more[i].height < more[i + 1].height <= more[|hs|].height;
      } else {
        assert more[..i + 1] == more;
      }
    }
  }

  // ---------------------------------------------------------------- retained heights

  lemma HeightsAppend<S>(hs: seq<HeightChanges<S>>, hc: HeightChanges<S>)
    ensures HeightsOf(hs + [hc]) == HeightsOf(hs) + {hc.height}
  {
    var more := hs + [hc];
    assert forall i :: 0 <= i < |hs| ==> more[i] == hs[i];
    assert more[|hs|] == hc;
    forall h | h in HeightsOf(hs) + {hc.height}
      ensures h in HeightsOf(more)
    {
      if h in HeightsOf(hs) {
        var i :| 0 <= i < |hs| && hs[i].height == h;
        assert more[i].height == h;
      }
    }
  }

  /** Dropping the entries of the oldest height forgets that height alone. */
  lemma HeightsTrim<S>(hs: seq<HeightChanges<S>>)
    requires hs != [] && Sorted(hs)
    ensures HeightsOf(hs[UpTo(hs, hs[0].height)..]) == HeightsOf(hs) - {hs[0].height}
    ensures |HeightsOf(hs[UpTo(hs, hs[0].height)..])| == |HeightsOf(hs)| - 1
  {
    var k := UpTo(hs, hs[0].height);
    var q := hs[k..];
    assert forall i :: 0 <= i < |q| ==> q[i] == hs[k + i];
    assert hs[0].height in HeightsOf(hs);
    forall h | h in HeightsOf(hs) && h != hs[0].height
      ensures h in HeightsOf(q)
    {
      var i :| 0 <= i < |hs| && hs[i].height == h;
      assert i >= k;
      assert q[i - k].height == h;
    }
    assert HeightsOf(q) == HeightsOf(hs) - {hs[0].height};
  }

  method ExecuteLoop<S>(cs: seq<Change<S>>, s: S) returns (t: S)
    ensures t == Execute(cs, s)
  {
    t := s;
    for i := 0 to |cs|
      invariant Execute(cs[i..], t) == Execute(cs, s)
    {
      assert cs[i..][1..] == cs[i + 1..];
      t := cs[i].execute(t);
    }
    assert cs[|cs|..] == [];
  }

  method RollbackLoop<S>(cs: seq<Change<S>>, s: S) returns (t: S)
    ensures t == Rollback(cs, s)
  {
    t := s;
    for i := 0 to |cs|
      invariant Rollback(cs[i..], t) == Rollback(cs, s)
    {
      assert cs[i..][1..] == cs[i + 1..];
      t := cs[i].rollback(t);
    }
    assert cs[|cs|..] == [];
  }

  /** Counts the distinct heights, and the entries of the oldest one. */
  method CountHeights<S>(hs: seq<HeightChanges<S>>) returns (total: nat, oldest: nat)
    requires Sorted(hs)
    ensures total == |HeightsOf(hs)|
    ensures oldest == if hs == [] then 0 else UpTo(hs, hs[0].height)
  {
    var hold: set<nat> := {};
    var lastHeight := 0;
    oldest := 0;
    ghost var k := if hs == [] then 0 else UpTo(hs, hs[0].height);
    for i := 0 to |hs|
      invariant hold == HeightsOf(hs[..i])
      invariant i > 0 ==> lastHeight == hs[0].height
      invariant oldest == if i <= k then i else k
    {
      if i == 0 {
        lastHeight := hs[i].height;
      }
      if hs[i].height == lastHeight {
        oldest := oldest + 1;
      }
      assert hs[..i + 1] == hs[..i] + [hs[i]];
      HeightsAppend(hs[..i], hs[i]);
      hold := hold + {hs[i].height};
    }
    assert hs[..|hs|] == hs;
    total := |hold|;
  }

  /** Executes the entries from an index on, oldest first. */
  method RedoLoop<S>(hs: seq<HeightChanges<S>>, from: nat, s: S) returns (t: S)
    requires from <= |hs|
    ensures t == ExecuteAll(hs[from..], s)
  {
    hide Execute;
    t := s;
    assert hs[from..from] == [];
    for i := from to |hs|
      invariant t == ExecuteAll(hs[from..i], s)
    {
      assert hs[from..i + 1] == hs[from..i] + [hs[i]];
      ExecuteAllAppend(hs[from..i], hs[i], s);
      t := ExecuteLoop(hs[i].changes, t);
    }
    assert hs[from..|hs|] == hs[from..];
  }

  /** Rolls back the newest entries, newest first. */
  method UndoLoop<S>(hs: seq<HeightChanges<S>>, count: nat, s: S) returns (t: S)
    requires count <= |hs|
    ensures t == UndoLast(hs, count, s)
  {
    hide Rollback;
    t := s;
    var i := |hs| - 1;
    assert hs[..|hs|] == hs;
    while i >= |hs| - count
      invariant |hs| - count - 1 <= i < |hs|
      invariant UndoLast(hs[..i + 1], i + 1 - (|hs| - count), t) == UndoLast(hs, count, s)
      decreases i
    {
      assert hs[..i + 1][..i] == hs[..i];
      t := RollbackLoop(hs[i].changes, t);
      i := i - 1;
    }
  }

  datatype SeekResult = Moved | NotEnough | OutOfRange

  class Log<S(!new)> {
    var capacity: nat
    var height: nat
    var changes: seq<HeightChanges<S>>
    var cachedChanges: Option<HeightChanges<S>>
    var tempChanges: seq<Change<S>>
    var seekHeight: nat

    /** The state the changes act on. */
    var world: S

    /** The state below the oldest entry, the state without the temporary changes, how many entries
        are applied in it, and the state after each commit. */
    ghost var base: S
    ghost var settled: S
    ghost var applied: nat
    ghost var snapshots: map<nat, S>

    /** The entries are in height order, and each is undone in the state it ran in. */
    ghost predicate EntriesOk()
      reads this
    {
      && Along(changes, base) && Sorted(changes)
      && (forall i :: 0 <= i < |changes| ==> changes[i].height <= height)
      && Snapshots(changes, base, snapshots)
      && |HeightsOf(changes)| <= (if capacity == 0 then 1 else capacity)
      && |changes| + height < TWO_32 && |changes| + seekHeight < TWO_32
    }

    /** Where the state stands among the entries. */
    ghost predicate PositionOk()
      reads this
    {
      && applied <= |changes|
      && settled == ExecuteAll(changes[..applied], base)
      && (seekHeight >= height ==> applied == |changes|)
      && (seekHeight < height ==> applied == |changes| - (height - seekHeight))
    }

    ghost predicate Valid()
      reads this
    {
      EntriesOk() && PositionOk() && (tempChanges == [] ==> world == settled)
    }

    /** Rolling the temporary changes back takes them off. */
    ghost predicate TempUndone()
      reads this
    {
      Rollback(tempChanges, world) == settled
    }

    constructor (capacity: nat, world: S)
      ensures Valid() && changes == [] && height == seekHeight == 0 && this.world == world && this.capacity == capacity
      ensures cachedChanges == None && tempChanges == []
    {
      this.capacity, height, changes, cachedChanges, tempChanges, seekHeight := capacity, 0, [], None, [], 0;
      this.world, base, settled, applied, snapshots := world, world, world, 0, map[];
    }

    /** Rolls the temporary changes back and forgets them. */
    method DropTemp()
      modifies this`world, this`tempChanges
      ensures tempChanges == [] && world == Rollback(old(tempChanges), old(world))
    {
      if |tempChanges| > 0 {
        world := RollbackLoop(tempChanges, world);
        tempChanges := [];
      }
    }

    /** Adds a change to the pending ones of its height; height 0 marks a temporary change.  A height
        below the newest, or another height than the pending one, makes the code panic. */
    method Append(height: nat, c: Change<S>) returns (panicked: bool)
      requires Valid()
      modifies this`world, this`tempChanges, this`cachedChanges
      ensures height == 0 ==>
                && Valid() && !panicked && world == old(world) && cachedChanges == old(cachedChanges)
                && tempChanges == old(tempChanges) + [c]
      ensures height > 0 ==> tempChanges == [] && world == Rollback(old(tempChanges), old(world))
      ensures height > 0 ==> (Valid() <==> old(TempUndone()))
      ensures height > 0 ==>
                (panicked <==> if old(cachedChanges).None? then height < this.height
                               else height != old(cachedChanges).value.height)
      ensures height > 0 ==>
                cachedChanges ==
                  if panicked then old(cachedChanges)
                  else Some(HeightChanges(height,
                              (if old(cachedChanges).None? then [] else old(cachedChanges).value.changes) + [c]))
    {
      hide Execute, Rollback, ExecuteAll, Snapshots, Sorted, Along, HeightsOf;
      if height == 0 {
        tempChanges := tempChanges + [c];
        return false;
      }
      DropTemp();
      if cachedChanges.None? && this.height != 0 && height < this.height {
        return true;
      }
      if cachedChanges.Some? && height != cachedChanges.value.height {
        return true;
      }
      var pending := if cachedChanges.None? then HeightChanges(height, []) else cachedChanges.value;
      cachedChanges := Some(HeightChanges(pending.height, pending.changes + [c]));
      panicked := false;
    }

    /** With temporary changes pending, a commit executes those and nothing else.  Committed once from
        a state that they undo, they can be taken off again. */
    method CommitTemp()
      requires Valid() && tempChanges != []
      modifies this`world
      ensures Valid() && world == Execute(tempChanges, old(world))
      ensures old(world) == settled ==> (TempUndone() <==> Undoes(tempChanges, settled))
    {
      hide Execute, Rollback, ExecuteAll, Snapshots, Sorted, Along, HeightsOf;
      world := ExecuteLoop(tempChanges, world);
    }

    /** Brings a sought state back to the newest height. */
    method Resume()
      requires Valid() && tempChanges == []
      modifies this`world, this`settled, this`applied
      ensures EntriesOk() && applied == |changes| && world == settled == ExecuteAll(changes, base)
    {
      hide Sorted, Along, Snapshots, HeightsOf, ExecuteAll;
      assert changes[..|changes|] == changes;
      var seek := (height - seekHeight) % TWO_32;
      var i := |changes| - seek;
      if 0 <= i {
        ExecuteAllSplit(changes, i, base);
        world := RedoLoop(changes, i, world);
      }
      settled, applied := world, |changes|;
    }

    /** Forgets the oldest height once the history holds as many heights as it may. */
    method Trim()
      requires EntriesOk() && world == ExecuteAll(changes, base)
      modifies this`changes, this`base
      ensures Along(changes, base) && Sorted(changes) && Snapshots(changes, base, snapshots)
      ensures forall i :: 0 <= i < |changes| ==> changes[i].height <= height
      ensures changes == Trimmed(old(changes), capacity) && |changes| <= |old(changes)|
      ensures old(changes) == [] || |HeightsOf(old(changes))| < capacity ==> changes == old(changes)
      ensures old(changes) != [] && |HeightsOf(old(changes))| >= capacity ==>
                var k := |old(changes)| - |changes|;
                && 1 <= k && changes == old(changes)[k..]
                && forall i :: 0 <= i < |old(changes)| ==>
                     (i < k <==> old(changes)[i].height == old(changes)[0].height)
      ensures world == ExecuteAll(changes, base)
      ensures |HeightsOf(changes)| < (if capacity == 0 then 1 else capacity)
    {
      hide ExecuteAll, Snapshots, HeightsOf, Along;
      TrimmedExactly(changes, capacity);
      var total, oldest := CountHeights(changes);
      NoHeights<S>();
      if total >= capacity {
        SnapshotsOfSuffix(changes, base, snapshots, oldest);
        ExecuteAllSplit(changes, oldest, base);
        if changes != [] {
          HeightsTrim(changes);
          SuffixOk(changes, oldest, base);
          base := ExecuteAll(changes[..oldest], base);
          changes := changes[oldest..];
        }
      }
    }

    /** Commits the pending changes as the entry of their height, from a sought state as if it had
        never been sought. */
    method CommitPending(height: nat)
      requires Valid() && tempChanges == [] && this.height <= height && |changes| + 1 + height < TWO_32
      requires cachedChanges.Some? ==>
                 cachedChanges.value.height == height && Undoes(cachedChanges.value.changes, ExecuteAll(changes, base))
      modifies this
      ensures Valid() && tempChanges == [] && cachedChanges == None && capacity == old(capacity)
      ensures this.height == seekHeight == height
      ensures var pending := if old(cachedChanges).Some? then old(cachedChanges).value else HeightChanges(height, []);
              && world == Execute(pending.changes, ExecuteAll(old(changes), old(base)))
              && changes == Trimmed(old(changes), capacity) + [pending]
              && snapshots == old(snapshots)[height := world]
    {
      hide Sorted, Along, HeightsOf, Snapshots, Execute, Rollback, ExecuteAll, Trimmed, Undoes;
      Resume();
      Trim();
      if cachedChanges.None? {
        EmptyUndoes(world);
        cachedChanges := Some(HeightChanges(height, []));
      }
      Push(cachedChanges.value);
      cachedChanges := None;
    }

    /** Executes an entry on the newest state and appends it. */
    method Push(pending: HeightChanges<S>)
      requires Along(changes, base) && Sorted(changes) && Snapshots(changes, base, snapshots)
      requires Undoes(pending.changes, world)
      requires forall i :: 0 <= i < |changes| ==> changes[i].height <= pending.height
      requires |HeightsOf(changes)| < (if capacity == 0 then 1 else capacity)
      requires tempChanges == [] && world == ExecuteAll(changes, base)
      requires |changes| + 1 + pending.height < TWO_32
      modifies this`world, this`height, this`seekHeight, this`changes, this`settled, this`applied, this`snapshots
      ensures Valid() && height == seekHeight == pending.height
      ensures world == Execute(pending.changes, old(world)) && changes == old(changes) + [pending]
      ensures snapshots == old(snapshots)[height := world]
    {
      hide Sorted, Along, HeightsOf, Snapshots, Execute, Rollback, ExecuteAll, Undoes;
      AppendOk(changes, pending, base, snapshots, capacity);
      ExecuteAllAppend(changes, pending, base);
      world := ExecuteLoop(pending.changes, world);
      height := pending.height;
      seekHeight := height;
      changes := changes + [pending];
      settled, applied, snapshots := world, |changes|, snapshots[height := world];
      assert changes[..|changes|] == changes;
    }

    lemma EntriesSorted()
      requires Valid()
      ensures Sorted(changes)
    {
    }

    /** Executes the temporary changes if there are any, else commits the pending ones.  A full history
        forgets the entries of its lowest height and no others. */
    method Commit(height: nat)
      requires Valid()
      requires tempChanges == [] ==> this.height <= height && |changes| + 1 + height < TWO_32
      requires tempChanges == [] && cachedChanges.Some? ==>
                 cachedChanges.value.height == height && Undoes(cachedChanges.value.changes, ExecuteAll(changes, base))
      modifies this
      ensures Valid() && capacity == old(capacity) && tempChanges == old(tempChanges)
      ensures tempChanges != [] ==>
                && world == Execute(tempChanges, old(world)) && changes == old(changes)
                && settled == old(settled) && base == old(base) && snapshots == old(snapshots)
                && this.height == old(this.height) && seekHeight == old(seekHeight) &&
                      cachedChanges == old(cachedChanges)
      ensures tempChanges != [] && old(world) == settled ==> (TempUndone() <==> Undoes(tempChanges, settled))
      ensures tempChanges == [] ==>
                var pending := if old(cachedChanges).Some? then old(cachedChanges).value else HeightChanges(height, []);
                && world == Execute(pending.changes, ExecuteAll(old(changes), old(base)))
                && changes == Trimmed(old(changes), capacity) + [pending]
                && (old(changes) == [] || |HeightsOf(old(changes))| < capacity ==> changes == old(changes) + [pending])
                && (old(changes) != [] && |HeightsOf(old(changes))| >= capacity ==>
                      var k := |old(changes)| + 1 - |changes|;
                      && 1 <= k <= |old(changes)| && changes == old(changes)[k..] + [pending]
                      && forall i :: 0 <= i < |old(changes)| ==>
                           (i < k <==> old(changes)[i].height == old(changes)[0].height))
                && snapshots == old(snapshots)[height := world]
                && cachedChanges == None && this.height == seekHeight == height
    {
      hide EntriesOk, PositionOk, Execute, ExecuteAll, Rollback, Trimmed, Undoes, HeightsOf;
      if |tempChanges| > 0 {
        CommitTemp();
        return;
      }
      ghost var hs := changes;
      EntriesSorted();
      CommitPending(height);
      KeptExactly(hs, capacity, changes[|changes| - 1]);
    }

    /** The state is at the newest height once the temporary changes are taken off. */
    ghost predicate AtNewest()
      reads this
    {
      seekHeight >= height && TempUndone()
    }

    /** Restores the state of a height and forgets the entries above it. */
    method RollbackTo(height: nat)
      requires Valid()
      modifies this
      ensures seekHeight == old(seekHeight) && base == old(base) && snapshots == old(snapshots)
      ensures cachedChanges == old(cachedChanges) && capacity == old(capacity) && EntriesOk()
      ensures height >= old(this.height) ==>
                && Valid() && world == old(world) && changes == old(changes) && this.height == old(this.height)
                && tempChanges == old(tempChanges)
      ensures height < old(this.height) ==>
                var k := UpTo(old(changes), height);
                && this.height == height && tempChanges == [] && changes == old(changes)[..k]
                && world == UndoLast(old(changes), |old(changes)| - k, Rollback(old(tempChanges), old(world)))
      ensures height < old(this.height) && old(AtNewest()) ==>
                && Valid() && world == ExecuteAll(changes, base)
                && (changes != [] ==>
                      changes[|changes| - 1].height in snapshots && world == snapshots[changes[|changes| - 1].height])
      ensures height < old(this.height) && old(AtNewest()) && height in HeightsOf(old(changes)) ==>
                height in snapshots && world == snapshots[height]
    {
      hide HeightsOf, Execute, Rollback, ExecuteAll, UpTo, Sorted, Along, Undoes, Snapshots, UndoLast;
      if height >= this.height {
        return;
      }
      ghost var k := UpTo(changes, height);
      assert changes[..|changes|] == changes;
      UpToSplits(changes, height);
      PrefixOk(changes, base, snapshots, k);
      UndoLastRestores(changes, |changes| - k, base);
      DropTemp();
      UndoAbove(height);
      this.height := height;
      applied, settled := |changes|, world;
      assert changes[..|changes|] == changes;
      if changes != [] {
        SnapshotAt(changes, base, snapshots, |changes| - 1);
      }
      LastUpTo(old(changes), height);
    }

    /** Rolls back and cuts off the entries above a height, newest first. */
    method UndoAbove(height: nat)
      requires Sorted(changes)
      modifies this`world, this`changes
      ensures var k := UpTo(old(changes), height);
              changes == old(changes)[..k] && world == UndoLast(old(changes), |old(changes)| - k, old(world))
    {
      hide Rollback, UpTo, Sorted;
      ghost var hs, k := changes, UpTo(changes, height);
      assert changes[..|changes|] == changes;
      UpToSplits(changes, height);
      var i := |changes| - 1;
      while i >= 0
        invariant -1 <= i < |hs| && k <= |changes| <= |hs|
        invariant |changes| == if i >= k then i + 1 else k
        invariant changes == hs[..|changes|]
        invariant UndoLast(changes, |changes| - k, world) == UndoLast(hs, |hs| - k, old(world))
        decreases i
      {
        if changes[i].height > height {
          assert changes[..i] == hs[..i];
          world := RollbackLoop(changes[i].changes, world);
          changes := changes[..i];
        }
        i := i - 1;
      }
    }

    /** The loops of a seek: the newest entries rolled back, or executed again. */
    method MoveTo(height: nat)
      requires seekHeight - height <= |changes|
      modifies this`world
      ensures world == SeekWorld(changes, seekHeight, height, old(world))
    {
      hide ExecuteAll, UndoLast;
      var seek := seekHeight - height;
      if seek >= 0 {
        world := UndoLoop(changes, seek, world);
      } else if |changes| + seek >= 0 {
        world := RedoLoop(changes, |changes| + seek, world);
      }
    }

    /** One entry for each height up to the newest. */
    predicate Contiguous()
      reads this
    {
      forall i :: 0 <= i < |changes| ==> changes[i].height == height - (|changes| - 1 - i)
    }

    /** The seeks that reach their height: those from the newest height in a history with an entry for
        each height, those that go nowhere, and those back to the newest height. */
    ghost predicate Meaningful(height: nat)
      reads this
    {
      || (seekHeight == this.height && height <= this.height && Contiguous())
      || seekHeight == height
      || seekHeight < this.height == height
    }

    method EnoughHistory(height: nat) returns (ok: bool)
      requires Sorted(changes)
      ensures ok <==> height >= (this.height - |HeightsOf(changes)|) % 0x1_0000_0000
    {
      var trueChange, _ := CountHeights(changes);
      var limitHeight := (this.height - trueChange) % TWO_32;
      ok := height >= limitHeight;
    }

    /** Moves the state, but not the history, to another height. */
    method SeekTo(height: nat) returns (r: SeekResult)
      requires Valid()
      modifies this`world, this`settled, this`applied, this`seekHeight
      ensures r == NotEnough <==> height < (this.height - |HeightsOf(changes)|) % 0x1_0000_0000
      ensures r == OutOfRange <==> r != NotEnough && old(seekHeight) - height > |changes|
      ensures r == NotEnough ==> Valid() && world == old(world) && seekHeight == old(seekHeight)
      ensures r == Moved ==>
                seekHeight == height && world == SeekWorld(changes, old(seekHeight), height, old(world))
      ensures old(Meaningful(height)) && r != NotEnough ==>
                && r == Moved && Valid() && applied == |changes| - Above(this.height, height)
                && (tempChanges == [] ==> world == ExecuteAll(changes[..applied], base))
                && (tempChanges == [] && Contiguous() && applied > 0 && height <= this.height ==>
                      height in snapshots && world == snapshots[height])
    {
      hide Execute, Rollback, ExecuteAll, HeightsOf, Sorted, Along, Undoes, Snapshots, SeekWorld, Meaningful;
      var enough := EnoughHistory(height);
      if !enough {
        return NotEnough;
      }
      if Meaningful(height) {
        SeekInRange(height);
      }
      if seekHeight - height > |changes| {
        return OutOfRange;
      }
      Move(height);
      r := Moved;
    }

    /** The part of a seek that moves the state. */
    method Move(height: nat)
      requires Valid() && seekHeight - height <= |changes|
      modifies this`world, this`settled, this`applied, this`seekHeight
      ensures seekHeight == height && world == SeekWorld(changes, old(seekHeight), height, old(world))
      ensures old(Meaningful(height)) ==>
                && Valid() && applied == |changes| - Above(this.height, height)
                && (tempChanges == [] ==> world == ExecuteAll(changes[..applied], base))
                && (tempChanges == [] && Contiguous() && applied > 0 && height <= this.height ==>
                      height in snapshots && world == snapshots[height])
    {
      hide Execute, Rollback, ExecuteAll, HeightsOf, Sorted, Along, Undoes, Snapshots, SeekWorld;
      if Meaningful(height) {
        SeekReaches(height);
        if Contiguous() && height <= this.height && this.height - height < |changes| {
          ContiguousSnapshot(changes, base, snapshots, this.height, height);
        }
      }
      MoveTo(height);
      applied := Landing(this.height, height, |changes|);
      seekHeight := height;
      settled := ExecuteAll(changes[..applied], base);
    }

    /** A meaningful seek that is not refused never runs out of entries. */
    lemma SeekInRange(height: nat)
      requires Valid() && height >= SeekLimit(this.height, |HeightsOf(changes)|) && Meaningful(height)
      ensures seekHeight - height <= |changes|
    {
      hide ExecuteAll, Snapshots, Along, HeightsOf;
      if seekHeight == this.height && Contiguous() {
        ContiguousHeights(changes, this.height);
      }
    }

    lemma SeekReaches(height: nat)
      requires Valid() && seekHeight - height <= |changes| && Meaningful(height)
      ensures Above(this.height, height) <= |changes|
      ensures SeekWorld(changes, seekHeight, height, settled)
           == ExecuteAll(changes[..|changes| - Above(this.height, height)], base)
    {
      hide ExecuteAll, Snapshots, Along, HeightsOf, UndoLast, Sorted;
      assert changes[..|changes|] == changes;
      if seekHeight == height {
        NothingUndone(changes, settled);
      } else if seekHeight < this.height == height {
        ExecuteAllSplit(changes, applied, base);
      } else {
        UndoLastRestores(changes, seekHeight - height, base);
      }
    }
  }

  /** With one entry for each height, the state after the entry of a height is its snapshot. */
  lemma ContiguousSnapshot<S>(hs: seq<HeightChanges<S>>, base: S, snapshots: map<nat, S>, newest: nat, height: nat)
    requires Snapshots(hs, base, snapshots) && height <= newest && newest - height < |hs|
    requires forall i :: 0 <= i < |hs| ==> hs[i].height == newest - (|hs| - 1 - i)
    ensures height in snapshots && snapshots[height] == ExecuteAll(hs[..|hs| - (newest - height)], base)
  {
    hide ExecuteAll;
    SnapshotAt(hs, base, snapshots, |hs| - (newest - height) - 1);
  }

  lemma NothingUndone<S>(hs: seq<HeightChanges<S>>, s: S)
    ensures UndoLast(hs, 0, s) == s
  {
  }

  /** How far the newest height lies above another. */
  function Above(newest: nat, height: nat): nat {
    if newest <= height then 0 else newest - height
  }

  /** How many of the entries a seek leaves applied. */
  function Landing(newest: nat, height: nat, entries: nat): nat {
    if Above(newest, height) <= entries then entries - Above(newest, height) else 0
  }

  /** The lowest height that can be sought; with an entry at height 0 it wraps and none can. */
  function SeekLimit(height: nat, entries: nat): int {
    (height - entries) % TWO_32
  }

  /** What moving from one height to another does to the state: the newest entries are rolled back
      or executed, as many as the heights are apart. */
  function SeekWorld<S>(hs: seq<HeightChanges<S>>, from: nat, to: nat, s: S): S
    requires from - to <= |hs|
  {
    if from >= to then UndoLast(hs, from - to, s)
    else if to - from <= |hs| then ExecuteAll(hs[|hs| - (to - from)..], s)
    else s
  }

  function Trimmed<S>(hs: seq<HeightChanges<S>>, capacity: nat): seq<HeightChanges<S>> {
    if hs != [] && |HeightsOf(hs)| >= capacity then hs[UpTo(hs, hs[0].height)..] else hs
  }

  /** Forgetting happens only to a full history, and takes exactly the entries of its lowest height. */
  lemma TrimmedExactly<S>(hs: seq<HeightChanges<S>>, capacity: nat)
    requires Sorted(hs)
    ensures hs == [] || |HeightsOf(hs)| < capacity ==> Trimmed(hs, capacity) == hs
    ensures hs != [] && |HeightsOf(hs)| >= capacity ==>
              var k := |hs| - |Trimmed(hs, capacity)|;
              && 1 <= k <= |hs| && Trimmed(hs, capacity) == hs[k..]
              && forall i :: 0 <= i < |hs| ==> (i < k <==> hs[i].height == hs[0].height)
  {
    hide HeightsOf;
    if hs != [] {
      UpToSplits(hs, hs[0].height);
    }
  }

  lemma KeptExactly<S>(hs: seq<HeightChanges<S>>, capacity: nat, hc: HeightChanges<S>)
    requires Sorted(hs)
    ensures var more := Trimmed(hs, capacity) + [hc];
            && (hs == [] || |HeightsOf(hs)| < capacity ==> more == hs + [hc])
            && (hs != [] && |HeightsOf(hs)| >= capacity ==>
                  var k := |hs| + 1 - |more|;
                  && 1 <= k <= |hs| && more == hs[k..] + [hc]
                  && forall i :: 0 <= i < |hs| ==> (i < k <==> hs[i].height == hs[0].height))
  {
    hide HeightsOf, Trimmed, Sorted;
    TrimmedExactly(hs, capacity);
  }

  /** Rolling back to a height that has an entry ends right after its last one. */
  lemma LastUpTo<S>(hs: seq<HeightChanges<S>>, h: nat)
    requires Sorted(hs)
    ensures h in HeightsOf(hs) ==> UpTo(hs, h) > 0 && hs[UpTo(hs, h) - 1].height == h
  {
    UpToSplits(hs, h);
  }

  /** What a run of commits retains. */
  function Retained<S>(capacity: nat, entries: seq<HeightChanges<S>>): seq<HeightChanges<S>> {
    if entries == [] then []
    else Trimmed(Retained(capacity, entries[..|entries| - 1]), capacity) + [entries[|entries| - 1]]
  }

  predicate Ascending<S>(hs: seq<HeightChanges<S>>) {
    forall i, j :: 0 <= i < j < |hs| ==> hs[i].height < hs[j].height
  }

  lemma {:induction false} AscendingHeights<S>(hs: seq<HeightChanges<S>>)
    requires Ascending(hs)
    ensures |HeightsOf(hs)| == |hs|
    decreases |hs|
  {
    if hs == [] {
      NoHeights<S>();
    } else {
      var rest := hs[..|hs| - 1];
      AscendingHeights(rest);
      HeightsAppend(rest, hs[|hs| - 1]);
      assert hs == rest + [hs[|hs| - 1]];
    }
  }

  lemma TrimAscending<S>(hs: seq<HeightChanges<S>>, capacity: nat)
    requires Ascending(hs)
    ensures Trimmed(hs, capacity) == if hs != [] && |hs| >= capacity then hs[1..] else hs
  {
    hide HeightsOf, Trimmed;
    AscendingHeights(hs);
    TrimmedExactly(hs, capacity);
    if |hs| > 1 {
      assert hs[1].height != hs[0].height;
    }
  }

  lemma AscendingSuffix<S>(hs: seq<HeightChanges<S>>, k: nat, n: nat)
    requires Ascending(hs) && k <= n <= |hs|
    ensures Ascending(hs[k..n])
  {
  }

  /** How many of n commits are forgotten: all but as many as the capacity, and never the last. */
  function Forgotten(n: nat, capacity: nat): (k: nat)
    ensures k <= n
  {
    if capacity == 0 then if n == 0 then 0 else n - 1
    else if n <= capacity then 0 else n - capacity
  }

  lemma RetainedStep<S>(capacity: nat, entries: seq<HeightChanges<S>>, k: nat)
    requires Ascending(entries) && k < |entries|
    requires Retained(capacity, entries[..|entries| - 1]) == entries[..|entries| - 1][k..]
    ensures var n := |entries|;
            Retained(capacity, entries) == if k < n - 1 && n - 1 - k >= capacity then entries[k + 1..] else entries[k..]
  {
    hide Trimmed, Ascending;
    var n := |entries|;
    var kept := entries[..n - 1][k..];
    assert kept == entries[k..n - 1];
    AscendingSuffix(entries, k, n - 1);
    TrimAscending(kept, capacity);
    assert kept + [entries[n - 1]] == entries[k..];
    if kept != [] {
      assert kept[1..] + [entries[n - 1]] == entries[k + 1..];
    }
  }

  /** A run of commits at ascending heights retains exactly its newest entries, as many as the capacity
      and at least one. */
  lemma {:induction false} RetainedExactly<S>(capacity: nat, entries: seq<HeightChanges<S>>)
    requires Ascending(entries)
    ensures Retained(capacity, entries) == entries[Forgotten(|entries|, capacity)..]
    ensures |entries| <= capacity ==> Retained(capacity, entries) == entries
    ensures 0 < capacity < |entries| ==> Retained(capacity, entries) == entries[|entries| - capacity..]
    ensures capacity == 0 < |entries| ==> Retained(capacity, entries) == [entries[|entries| - 1]]
    decreases |entries|
  {
    hide Ascending, Retained;
    if entries == [] {
      NothingRetained<S>(capacity);
    } else {
      AscendingSuffix(entries, 0, |entries| - 1);
      assert entries[0..|entries| - 1] == entries[..|entries| - 1];
      RetainedExactly(capacity, entries[..|entries| - 1]);
      RetainedStep(capacity, entries, Forgotten(|entries| - 1, capacity));
    }
  }

  lemma NothingRetained<S>(capacity: nat)
    ensures Retained<S>(capacity, []) == []
  {
  }

  /** So after such a run every one of those heights can be rolled back to: undoing the newer entries
      leaves the state from right after its commit. */
  lemma RetainedRestored<S>(capacity: nat, entries: seq<HeightChanges<S>>, s: S, i: nat)
    requires Ascending(entries) && Along(entries, s) && i < |entries|
    requires Forgotten(|entries|, capacity) <= i
    ensures |entries| - 1 - i <= |Retained(capacity, entries)|
    ensures UndoLast(Retained(capacity, entries), |entries| - 1 - i, ExecuteAll(entries, s))
         == ExecuteAll(entries[..i + 1], s)
  {
    hide ExecuteAll, UndoLast, Along, Retained, Ascending;
    RetainedExactly(capacity, entries);
    var kept := Retained(capacity, entries);
    var k := |entries| - |kept|;
    assert kept == entries[k..];
    ExecuteAllSplit(entries, k, s);
    AlongSuffix(entries, k, s);
    UndoLastRestores(kept, |entries| - 1 - i, ExecuteAll(entries[..k], s));
    ExecuteAllSplit(entries[..i + 1], k, s);
    assert entries[..i + 1][..k] == entries[..k] && entries[..i + 1][k..] == kept[..i + 1 - k];
  }

  lemma SnapshotAt<S>(hs: seq<HeightChanges<S>>, base: S, snapshots: map<nat, S>, i: nat)
    requires Snapshots(hs, base, snapshots) && i < |hs| && LastAt(hs, i)
    ensures hs[i].height in snapshots && snapshots[hs[i].height] == ExecuteAll(hs[..i + 1], base)
  {
  }

  lemma ExecuteAllAppend<S>(hs: seq<HeightChanges<S>>, hc: HeightChanges<S>, base: S)
    ensures ExecuteAll(hs + [hc], base) == Execute(hc.changes, ExecuteAll(hs, base))
  {
    assert (hs + [hc])[..|hs|] == hs;
  }

  lemma NoHeights<S>()
    ensures HeightsOf<S>([]) == {}
  {
  }

  lemma EmptyUndoes<S>(s: S)
    ensures Undoes([], s)
  {
  }

  lemma SuffixOk<S>(hs: seq<HeightChanges<S>>, k: nat, base: S)
    requires Along(hs, base) && Sorted(hs) && k <= |hs|
    ensures Along(hs[k..], ExecuteAll(hs[..k], base)) && Sorted(hs[k..])
  {
    hide Along, ExecuteAll;
    AlongSuffix(hs, k, base);
    assert forall i :: 0 <= i < |hs[k..]| ==> hs[k..][i] == hs[k + i];
  }

  lemma AppendOk<S>(hs: seq<HeightChanges<S>>, hc: HeightChanges<S>, base: S, snapshots: map<nat, S>, capacity: nat)
    requires Along(hs, base) && Sorted(hs) && Snapshots(hs, base, snapshots)
    requires Undoes(hc.changes, ExecuteAll(hs, base))
    requires forall i :: 0 <= i < |hs| ==> hs[i].height <= hc.height
    requires |HeightsOf(hs)| < (if capacity == 0 then 1 else capacity)
    ensures Along(hs + [hc], base) && Sorted(hs + [hc])
    ensures Snapshots(hs + [hc], base, snapshots[hc.height := ExecuteAll(hs + [hc], base)])
    ensures |HeightsOf(hs + [hc])| <= (if capacity == 0 then 1 else capacity)
  {
    hide HeightsOf, ExecuteAll, Snapshots, Along, Undoes;
    HeightsAppend(hs, hc);
    AlongAppend(hs, hc, base);
    SnapshotsAppend(hs, base, snapshots, hc);
  }

  lemma UpToSplits<S>(hs: seq<HeightChanges<S>>, h: nat)
    requires Sorted(hs)
    ensures UpTo(hs, h) <= |hs|
    ensures forall i :: 0 <= i < |hs| ==> (hs[i].height <= h <==> i < UpTo(hs, h))
  {
  }

  lemma PrefixOk<S>(hs: seq<HeightChanges<S>>, base: S, snapshots: map<nat, S>, k: nat)
    requires Along(hs, base) && Sorted(hs) && Snapshots(hs, base, snapshots)
    requires k <= |hs| && (0 < k < |hs| ==> hs[k - 1].height < hs[k].height)
    ensures Along(hs[..k], base) && Sorted(hs[..k]) && Snapshots(hs[..k], base, snapshots)
    ensures |HeightsOf(hs[..k])| <= |HeightsOf(hs)|
  {
    hide ExecuteAll, Snapshots, Along;
    AlongPrefix(hs, k, base);
    SnapshotsOfPrefix(hs, base, snapshots, k);
    assert forall i :: 0 <= i < k ==> hs[..k][i] == hs[i];
    SubsetSize(HeightsOf(hs[..k]), HeightsOf(hs));
  }

  lemma SubsetSize(a: set<nat>, b: set<nat>)
    requires a <= b
    ensures |a| <= |b|
  {
    assert b == a + (b - a);
  }

  lemma {:induction false} ContiguousHeights<S>(hs: seq<HeightChanges<S>>, height: int)
    requires forall i :: 0 <= i < |hs| ==> hs[i].height == height - (|hs| - 1 - i)
    ensures |HeightsOf(hs)| == |hs| && (hs != [] ==> |hs| <= height + 1)
    decreases |hs|
  {
    if hs == [] {
      NoHeights<S>();
    } else {
      var rest := hs[..|hs| - 1];
      ContiguousHeights(rest, height - 1);
      assert hs == rest + [hs[|hs| - 1]];
      HeightsAppend(rest, hs[|hs| - 1]);
      assert height !in HeightsOf(rest);
    }
  }

  // ---------------------------------------------------------------- when a seek is meaningful

  function Adder(j: int): Change<int> {
    Change((x: int) => x + j, (x: int) => x - j)
  }

  /** A history above `low` in which every height adds itself to a counter. */
  function Ladder(low: nat, n: nat): (hs: seq<HeightChanges<int>>)
    ensures |hs| == n
  {
    if n == 0 then [] else Ladder(low, n - 1) + [HeightChanges(low + n, [Adder(low + n)])]
  }

  function Sum(low: nat, n: nat): nat {
    if n == 0 then 0 else Sum(low, n - 1) + low + n
  }

  lemma LadderLength(low: nat, n: nat)
    ensures |Ladder(low, n)| == n
  {
  }

  lemma AdderRung(j: int, s: int)
    ensures Execute([Adder(j)], s) == s + j && Rollback([Adder(j)], s) == s - j
  {
    OneChange(Adder(j), s);
  }

  lemma Rung(low: nat, n: nat)
    requires n > 0
    ensures Ladder(low, n) == Ladder(low, n - 1) + [HeightChanges(low + n, [Adder(low + n)])]
    ensures Sum(low, n) == Sum(low, n - 1) + low + n
  {
  }

  lemma {:induction false} LadderExecute(low: nat, n: nat, k: nat, s: int)
    requires k <= n
    ensures ExecuteAll(Ladder(low, n)[k..], s) == s + Sum(low, n) - Sum(low, k)
    decreases n
  {
    hide Ladder, Sum, Adder, Execute, ExecuteAll;
    LadderLength(low, n);
    if k == n {
      assert Ladder(low, n)[k..] == [];
      NothingExecuted(s);
    } else {
      LadderExecute(low, n - 1, k, s);
      Rung(low, n);
      LadderLength(low, n - 1);
      var below, rung := Ladder(low, n - 1)[k..], HeightChanges(low + n, [Adder(low + n)]);
      assert Ladder(low, n)[k..] == below + [rung];
      ExecuteAllAppend(below, rung, s);
      AdderRung(low + n, s + Sum(low, n - 1) - Sum(low, k));
    }
  }

  lemma NothingExecuted<S>(s: S)
    ensures ExecuteAll([], s) == s
  {
  }

  lemma {:induction false} LadderUndo(low: nat, n: nat, k: nat, s: int)
    requires k <= n
    ensures UndoLast(Ladder(low, n), k, s) == s - (Sum(low, n) - Sum(low, n - k))
    decreases k
  {
    hide Ladder, Sum, Adder, Rollback, Execute;
    if k > 0 {
      Rung(low, n);
      LadderLength(low, n - 1);
      assert Ladder(low, n)[..n - 1] == Ladder(low, n - 1);
      AdderRung(low + n, s);
      LadderUndo(low, n - 1, k - 1, s - (low + n));
    }
  }

  /** The same number of rungs sums to more the higher it lies. */
  lemma {:induction false} HigherSumsMore(low: nat, a: nat, b: nat, k: nat)
    requires a < b && k <= a
    ensures Sum(low, a) - Sum(low, a - k) <= Sum(low, b) - Sum(low, b - k)
    ensures k > 0 ==> Sum(low, a) - Sum(low, a - k) < Sum(low, b) - Sum(low, b - k)
    decreases k
  {
    if k > 0 {
      HigherSumsMore(low, a, b, k - 1);
    }
  }

  /** A seek to a height of the ladder reaches the state of its target exactly when it starts at the
      newest height, goes nowhere, or returns to the newest height.  From a seek height above the
      newest, which a rollback leaves behind, no seek does: it undoes too much, or runs out of entries. */
  lemma SeekExact(low: nat, n: nat, from: nat, to: nat, s: int)
    requires to <= n
    ensures (from - to <= n
             && SeekWorld(Ladder(low, n), low + from, low + to, s + Sum(low, Min(from, n))) == s + Sum(low, to))
            <==> from <= n && (from == n || from == to || to == n)
  {
    hide Ladder, Sum, UndoLast, ExecuteAll;
    LadderLength(low, n);
    if from > n {
      if from - to <= n {
        LadderUndo(low, n, from - to, s + Sum(low, n));
        SumGrows(low, n - (from - to), to);
      }
    } else if from >= to {
      LadderUndo(low, n, from - to, s + Sum(low, from));
      if from < n {
        HigherSumsMore(low, from, n, from - to);
      }
    } else {
      LadderExecute(low, n, n - (to - from), s + Sum(low, from));
      if to < n {
        HigherSumsMore(low, to, n, to - from);
      }
    }
  }

  function Min(a: nat, b: nat): nat {
    if a <= b then a else b
  }

  /** Rolling back to a height is right exactly when the state was at the newest height: the entries
      above the target are undone whether or not a seek had already undone them. */
  lemma RollbackExact(low: nat, n: nat, from: nat, to: nat, s: int)
    requires from <= n && to < n
    ensures UndoLast(Ladder(low, n), n - to, s + Sum(low, from)) == s + Sum(low, to) <==> from == n
  {
    hide Ladder, Sum, UndoLast;
    LadderLength(low, n);
    LadderUndo(low, n, n - to, s + Sum(low, from));
    if from < n {
      SumGrows(low, from, n);
    }
  }

  lemma {:induction false} SumGrows(low: nat, a: nat, b: nat)
    requires a < b
    ensures Sum(low, a) < Sum(low, b)
  {
    if a < b - 1 {
      SumGrows(low, a, b - 1);
    }
  }
}
