/** What the `@state` decorator promises, proved about the reference model in DeferredState.dfy. */
module DeferredStateProperties {
  import opened JsValues
  import opened DeferredState

  // ---------------------------------------------------------------------------------------------
  // The scheduler invariant

  /** When promises can be cancelled, at most one commit handler is ever waiting to run, and it is the
      one whose promise the instance stores. */
  lemma AtMostOnePending(s: Instance)
    requires Valid(s) && s.cancellable
    ensures |s.scheduled| <= 1
    ensures s.scheduled != {} ==> s.promise.Some? && s.scheduled == {s.promise.value}
  {
  }

  /** With cancellable promises, running any handler other than the stored promise's does nothing:
      a superseded commit never fires. */
  lemma OnlyStoredPromiseFires(s: Instance, t: Token)
    requires Valid(s) && s.cancellable && s.promise != Some(t)
    ensures Fire(s, t) == s
  {
  }

  /** `state$initDeferred` is idempotent. */
  lemma InitDeferredIdempotent(s: Instance)
    ensures InitDeferred(InitDeferred(s)) == InitDeferred(s)
  {
  }

  /** Every operation keeps the invariant. */
  lemma StepPreservesValid(s: Instance, op: Op)
    requires Valid(s)
    ensures Valid(Step(s, op))
  {
  }

  /** A field write keeps the invariant (the class's setter relies on it). */
  lemma SetPreservesValid(s: Instance, c: FieldConfig, value: Value)
    requires Valid(s)
    ensures Valid(Set(s, c, value))
  {
  }

  /** Any run of operations from a valid instance ends in a valid instance; in particular a freshly
      constructed component stays valid whatever happens to it. */
  lemma {:induction false} RunPreservesValid(s: Instance, ops: seq<Op>)
    requires Valid(s)
    ensures Valid(Run(s, ops))
    decreases |ops|
  {
    if ops != [] {
      StepPreservesValid(s, ops[0]);
      RunPreservesValid(Step(s, ops[0]), ops[1..]);
    }
  }

  /** When promises can be cancelled, an accepted write leaves exactly one handler scheduled: the new
      one. When they cannot, the superseded handlers stay scheduled beside the new one. */
  lemma AcceptedWriteReplacesPending(s: Instance, c: FieldConfig, value: Value)
    requires Valid(s) && !ApplyTransform(c, value).stop
    ensures s.nextToken !in s.scheduled
    ensures Set(s, c, value).promise == Some(s.nextToken)
    ensures s.cancellable ==> Set(s, c, value).scheduled == {s.nextToken}
    ensures !s.cancellable ==> Set(s, c, value).scheduled == s.scheduled + {s.nextToken}
  {
  }

  // ---------------------------------------------------------------------------------------------
  // Writes and reads

  /** A write the transform stops leaves an instance whose buffer exists exactly as it was: buffer,
      promise, scheduled handlers, hash and live state. */
  lemma VetoedWriteIsNoOp(s: Instance, c: FieldConfig, value: Value)
    requires s.deferred.Some? && ApplyTransform(c, value).stop
    ensures Set(s, c, value) == s
  {
  }

  /** `LastWrites` seen from the front: the first write counts only for fields no later accepted write
      touches. */
  lemma {:induction false} LastWritesFront(ws: seq<Write>)
    requires ws != []
    ensures LastWrites(ws) ==
              (if Accepted(ws[0]) then map[ws[0].config.field := Buffered(ws[0])] else map[])
              + LastWrites(ws[1..])
    decreases |ws|
  {
    var first: Buffer := if Accepted(ws[0]) then map[ws[0].config.field := Buffered(ws[0])] else map[];
    if |ws| == 1 {
      assert ws[1..] == [];
      assert ws[..0] == [];
    } else {
      var n := |ws|;
      var init := ws[..n - 1];
      var w := ws[n - 1];
      LastWritesFront(init);
      assert init[0] == ws[0];
      assert init[1..] == ws[1..][..n - 2];
      assert ws[1..][n - 2] == w;
      if Accepted(w) {
        assert (first + LastWrites(init[1..]))[w.config.field := Buffered(w)]
            == first + LastWrites(init[1..])[w.config.field := Buffered(w)];
      }
    }
  }

  /** A field is in `LastWrites` exactly when some write to it was accepted. */
  lemma {:induction false} LastWritesKeys(ws: seq<Write>, f: Field)
    ensures f in LastWrites(ws) <==> exists i :: 0 <= i < |ws| && Accepted(ws[i]) && ws[i].config.field == f
    decreases |ws|
  {
    if ws != [] {
      var n := |ws|;
      var init := ws[..n - 1];
      LastWritesKeys(init, f);
      if f in LastWrites(ws) && !(Accepted(ws[n - 1]) && ws[n - 1].config.field == f) {
        var i :| 0 <= i < |init| && Accepted(init[i]) && init[i].config.field == f;
        assert ws[i] == init[i];
      }
      if exists i :: 0 <= i < n && Accepted(ws[i]) && ws[i].config.field == f {
        var i :| 0 <= i < n && Accepted(ws[i]) && ws[i].config.field == f;
        if i < n - 1 {
          assert init[i] == ws[i];
        }
      }
    }
  }

  /** Last write wins: the field of an accepted write that no later accepted write touches holds that
      write's (transformed) value. */
  lemma {:induction false} LastWritesValue(ws: seq<Write>, i: nat)
    requires i < |ws| && Accepted(ws[i])
    requires forall j :: i < j < |ws| && Accepted(ws[j]) ==> ws[j].config.field != ws[i].config.field
    ensures ws[i].config.field in LastWrites(ws)
    ensures LastWrites(ws)[ws[i].config.field] == Buffered(ws[i])
    decreases |ws|
  {
    var n := |ws|;
    if i < n - 1 {
      var init := ws[..n - 1];
      assert init[i] == ws[i];
      forall j | i < j < |init| && Accepted(init[j])
        ensures init[j].config.field != init[i].config.field
      {
        assert init[j] == ws[j];
      }
      LastWritesValue(init, i);
    }
  }

  /** Synchronous writes coalesce: after any sequence of writes, live state is untouched and the buffer
      holds what it held before overridden by the last accepted write of every field; some handler is
      pending once any write was accepted. */
  lemma {:induction false} WritesCoalesce(s: Instance, ws: seq<Write>)
    requires ws != []
    ensures SetAll(s, ws).state == s.state && SetAll(s, ws).cancellable == s.cancellable
    ensures SetAll(s, ws).unmounting == InitDeferred(s).unmounting
    ensures SetAll(s, ws).deferred == Some(InitDeferred(s).deferred.value + LastWrites(ws))
    ensures AnyAccepted(ws) ==>
              SetAll(s, ws).promise.Some? && SetAll(s, ws).promise.value in SetAll(s, ws).scheduled
    ensures !AnyAccepted(ws) ==> SetAll(s, ws) == InitDeferred(s)
    decreases |ws|
  {
    var w := ws[0];
    var s1 := Set(s, w.config, w.value);
    var d := InitDeferred(s).deferred.value;
    LastWritesFront(ws);
    if |ws| == 1 {
      assert ws[1..] == [];
      assert LastWrites(ws[1..]) == map[];
      assert AnyAccepted(ws) ==> Accepted(ws[0]);
      if Accepted(w) {
        assert d + map[w.config.field := Buffered(w)] == d[w.config.field := Buffered(w)];
      } else {
        assert d + map[] == d;
      }
    } else {
      WritesCoalesce(s1, ws[1..]);
      assert InitDeferred(s1) == s1;
      if Accepted(w) {
        assert s1.deferred.value == d[w.config.field := Buffered(w)];
        assert d[w.config.field := Buffered(w)] + LastWrites(ws[1..])
            == d + (map[w.config.field := Buffered(w)] + LastWrites(ws[1..]));
      } else {
        assert s1 == InitDeferred(s);
        assert map[] + LastWrites(ws[1..]) == LastWrites(ws[1..]);
      }
      if AnyAccepted(ws) && !AnyAccepted(ws[1..]) {
        forall j | 1 <= j < |ws|
          ensures !Accepted(ws[j])
        {
          assert ws[j] == ws[1..][j - 1];
        }
        assert Accepted(w);
      }
      if !AnyAccepted(ws) {
        assert !Accepted(ws[0]);
        forall i | 0 <= i < |ws[1..]|
          ensures !Accepted(ws[1..][i])
        {
          assert ws[1..][i] == ws[i + 1];
        }
      }
    }
  }

  /** A buffered value stays in the buffer, unchanged, through reads, unmounts and writes that do not
      replace it. */
  lemma {:induction false} BufferedSurvives(s: Instance, ops: seq<Op>, f: Field)
    requires s.deferred.Some? && f in s.deferred.value
    requires forall i :: 0 <= i < |ops| ==> KeepsBuffered(ops[i], f)
    ensures Run(s, ops).deferred.Some? && f in Run(s, ops).deferred.value
    ensures Run(s, ops).deferred.value[f] == s.deferred.value[f]
    decreases |ops|
  {
    if ops != [] {
      var s1 := Step(s, ops[0]);
      assert KeepsBuffered(ops[0], f);
      assert s1.deferred.Some? && f in s1.deferred.value && s1.deferred.value[f] == s.deferred.value[f];
      forall i | 0 <= i < |ops[1..]|
        ensures KeepsBuffered(ops[1..][i], f)
      {
        assert ops[1..][i] == ops[i + 1];
      }
      BufferedSurvives(s1, ops[1..], f);
    }
  }

  /** Read-your-writes: after an accepted write, the field reads the (transformed) value written until
      something replaces it in the buffer or a commit clears the buffer: later reads, unmounts and
      writes to other fields do not matter, nor does what live state holds. The read changes nothing. */
  lemma ReadYourWrite(s: Instance, c: FieldConfig, value: Value, ops: seq<Op>)
    requires !ApplyTransform(c, value).stop
    requires forall i :: 0 <= i < |ops| ==> KeepsBuffered(ops[i], c.field)
    ensures var r := Run(Set(s, c, value), ops);
            Get(r, c) == (r, ApplyTransform(c, value).value)
  {
    BufferedSurvives(Set(s, c, value), ops, c.field);
  }

  /** Read-your-writes over a whole tick: after a sequence of writes, a field with an accepted write
      reads the value of its last accepted write, before any commit. */
  lemma ReadAfterWrites(s: Instance, ws: seq<Write>, c: FieldConfig)
    requires c.field in LastWrites(ws)
    ensures Get(SetAll(s, ws), c).1 == LastWrites(ws)[c.field]
    ensures Get(SetAll(s, ws), c).0 == SetAll(s, ws)
  {
    assert ws != [];
    WritesCoalesce(s, ws);
  }

  /** The getter is stable: reading a field a second time returns the same value and changes nothing,
      so a value seeded into live state is kept. */
  lemma GetIsStable(s: Instance, c: FieldConfig)
    ensures Get(Get(s, c).0, c) == (Get(s, c).0, Get(s, c).1)
  {
  }

  /** The first read of a field whose initializer returned a `StateProperty`, on a component whose
      live state was never created, creates live state holding just that field with the property's
      `value`, and returns it. */
  lemma FirstReadSeedsDeclaredValue(cancellable: bool, field: Field, value: Value, setter: Option<Transform>)
    ensures var c := Declare(field, Returns(StateProperty(value, setter)));
            var r := Get(Fresh(cancellable, None), c);
            r.1 == value && r.0.state == Some(map[field := value]) && r.0.deferred == Some(map[])
  {
  }

  // ---------------------------------------------------------------------------------------------
  // Commits

  /** One tick, one commit: once a tick's writes are done and promises can be cancelled, exactly one
      handler is scheduled; when it runs it merges every field's last accepted value into live state in
      one step (unless the component is unmounting) and leaves no handler that could run again. */
  lemma OneCommitPerTick(s: Instance, ws: seq<Write>)
    requires Valid(s) && s.cancellable && AnyAccepted(ws)
    ensures var r := SetAll(s, ws);
            r.promise.Some? && r.scheduled == {r.promise.value}
    ensures var r := SetAll(s, ws);
            var f := Fire(r, r.promise.value);
            && f.scheduled == {}
            && (!InitDeferred(s).unmounting ==>
                  f.state == Some(MergeState(s.state, InitDeferred(s).deferred.value + LastWrites(ws)))
                  && f.deferred == Some(map[]))
            && (InitDeferred(s).unmounting ==> f.state == s.state)
  {
    assert ws != [];
    WritesCoalesce(s, ws);
    SetAllPreservesValid(s, ws);
    AtMostOnePending(SetAll(s, ws));
  }

  lemma {:induction false} SetAllPreservesValid(s: Instance, ws: seq<Write>)
    requires Valid(s)
    ensures Valid(SetAll(s, ws))
    decreases |ws|
  {
    if ws != [] {
      SetPreservesValid(s, ws[0].config, ws[0].value);
      SetAllPreservesValid(Set(s, ws[0].config, ws[0].value), ws[1..]);
    }
  }

  /** `commitState` is idempotent: a second call with no write in between changes nothing at all. */
  lemma CommitTwice(s: Instance)
    ensures CommitState(CommitState(s)) == CommitState(s)
  {
    var c := CommitState(s);
    if c.deferred.Some? && !c.unmounting {
      assert c.deferred == Some(map[]);
      assert MergeState(c.state, map[]) == c.state.value;
    }
  }

  /** Without cancellation a superseded handler may still run. It applies the buffer as it is when it
      runs, not as it was when scheduled, and once it has, any further handler leaves live state as
      that late run left it until the next write. */
  lemma LateFireAppliesCurrentBuffer(s: Instance, t: Token, p: Token)
    requires Valid(s) && t in s.scheduled && s.promise != Some(t)
    ensures !s.cancellable && s.deferred.Some?
    ensures !s.unmounting ==>
              Fire(s, t).state == Some(MergeState(s.state, s.deferred.value))
              && Fire(s, t).deferred == Some(map[])
    ensures s.unmounting ==> Fire(s, t).state == s.state
    ensures Fire(Fire(s, t), p).state == Fire(s, t).state
  {
    var s1 := Fire(s, t);
    if !s.unmounting {
      assert MergeState(s1.state, map[]) == s1.state.value;
    }
  }

  // ---------------------------------------------------------------------------------------------
  // Unmounting

  /** A run of operations reads no field. */
  predicate NoReads(ops: seq<Op>) {
    forall i :: 0 <= i < |ops| ==> !ops[i].GetOp?
  }

  /** Once the component is unmounting and its buffer exists, no commit (scheduled or forced) changes
      live state again: only reads may still seed missing fields, and every value live state holds
      keeps its value. Without reads live state is exactly as it was. */
  lemma {:induction false} UnmountSilencesCommits(s: Instance, ops: seq<Op>)
    requires s.unmounting && s.deferred.Some?
    ensures Run(s, ops).unmounting && Run(s, ops).deferred.Some?
    ensures s.state.Some? ==>
              && Run(s, ops).state.Some?
              && (forall f :: f in s.state.value ==>
                    f in Run(s, ops).state.value && Run(s, ops).state.value[f] == s.state.value[f])
    ensures NoReads(ops) ==> Run(s, ops).state == s.state
    decreases |ops|
  {
    if ops != [] {
      var s1 := Step(s, ops[0]);
      UnmountSilencesCommits(s1, ops[1..]);
      if NoReads(ops) {
        assert !ops[0].GetOp?;
        assert s1.state == s.state;
        forall i | 0 <= i < |ops[1..]|
          ensures !ops[1..][i].GetOp?
        {
          assert ops[1..][i] == ops[i + 1];
        }
      }
    }
  }

  /** The wrapped teardown raises the flag and still runs the component's own hook; a commit after it
      leaves live state and the pending buffer alone once the buffer exists. */
  lemma UnmountThenCommit(s: Instance)
    requires s.deferred.Some?
    ensures Unmount(s).teardowns == s.teardowns + 1
    ensures CommitState(Unmount(s)).state == s.state
    ensures CommitState(Unmount(s)).deferred == s.deferred
  {
  }

  /** Unmounting before any field was accessed is forgotten: the first access creates the buffer and
      clears the flag, so an accepted write after unmounting is committed to live state when its
      handler runs. */
  lemma UnmountBeforeFirstAccessIsForgotten(s: Instance, c: FieldConfig, value: Value)
    requires Valid(s) && s.deferred.None? && !ApplyTransform(c, value).stop
    ensures Unmount(s).unmounting
    ensures var u := Set(Unmount(s), c, value);
            !u.unmounting && u.promise.Some? &&
            Fire(u, u.promise.value).state ==
              Some(MergeState(s.state, map[c.field := ApplyTransform(c, value).value]))
  {
  }

  // ---------------------------------------------------------------------------------------------
  // Scenarios

  /** `count` starts at 0; `count = 1; count = 2` in one tick reads back 2; when the commit runs live
      state holds 2 and the buffer is empty. */
  lemma CountScenario(cancellable: bool)
    ensures var c := Declare("count", Returns(Plain(Num(0))));
            var r := SetAll(Fresh(cancellable, Some(map[])), [Write(c, Num(1)), Write(c, Num(2))]);
            && Get(r, c).1 == Num(2)
            && r.promise.Some?
            && var f := Fire(r, r.promise.value);
            && f.state == Some(map["count" := Num(2)])
            && f.deferred == Some(map[])
  {
    var c := Declare("count", Returns(Plain(Num(0))));
    var ws := [Write(c, Num(1)), Write(c, Num(2))];
    var s0 := Fresh(cancellable, Some(map[]));
    WritesCoalesce(s0, ws);
    assert Accepted(ws[0]);
    assert AnyAccepted(ws);
    assert LastWrites(ws[..1]) == map["count" := Num(1)];
    assert LastWrites(ws) == map["count" := Num(2)];
    var r := SetAll(s0, ws);
    assert r.deferred == Some(map["count" := Num(2)]) by {
      assert map[] + map["count" := Num(2)] == map["count" := Num(2)];
    }
    ReadAfterWrites(s0, ws, c);
    assert MergeState(Some(map[]), map["count" := Num(2)]) == map["count" := Num(2)];
  }

  /** Once unmounting, a buffered field never reaches live state: the buffer keeps it (commits leave
      the buffer alone and reads return the buffered value instead of seeding it). */
  lemma {:induction false} UnmountedBufferNeverLands(s: Instance, ops: seq<Op>, f: Field)
    requires s.unmounting && s.deferred.Some? && f in s.deferred.value
    requires s.state.Some? ==> f !in s.state.value
    ensures Run(s, ops).deferred.Some? && f in Run(s, ops).deferred.value
    ensures Run(s, ops).state.Some? ==> f !in Run(s, ops).state.value
    decreases |ops|
  {
    if ops != [] {
      var s1 := Step(s, ops[0]);
      assert s1.unmounting && s1.deferred.Some? && f in s1.deferred.value;
      assert s1.state.Some? ==> f !in s1.state.value;
      UnmountedBufferNeverLands(s1, ops[1..], f);
    }
  }

  /** `count = 5`, then the component unmounts before the commit runs: whatever happens next, live
      state never holds `count`, and without reads it stays exactly as it was. */
  lemma UnmountScenario(cancellable: bool)
    ensures var c := Declare("count", Returns(Plain(Num(0))));
            var s := Run(Fresh(cancellable, Some(map[])), [SetOp(c, Num(5)), UnmountOp]);
            forall ops :: Run(s, ops).state.Some? && "count" !in Run(s, ops).state.value
                          && (NoReads(ops) ==> Run(s, ops).state == Some(map[]))
  {
    var c := Declare("count", Returns(Plain(Num(0))));
    var s0 := Fresh(cancellable, Some(map[]));
    var s := Run(s0, [SetOp(c, Num(5)), UnmountOp]);
    var ops0 := [SetOp(c, Num(5)), UnmountOp];
    assert ops0[1..] == [UnmountOp];
    assert [UnmountOp][1..] == [];
    assert Run(s0, ops0) == Run(Set(s0, c, Num(5)), [UnmountOp]);
    assert Run(Set(s0, c, Num(5)), [UnmountOp]) == Unmount(Set(s0, c, Num(5)));
    assert s.unmounting && s.deferred.Some? && s.state == Some(map[]);
    assert "count" in s.deferred.value;
    forall ops
      ensures Run(s, ops).state.Some? && "count" !in Run(s, ops).state.value
      ensures NoReads(ops) ==> Run(s, ops).state == Some(map[])
    {
      UnmountSilencesCommits(s, ops);
      UnmountedBufferNeverLands(s, ops, "count");
    }
  }
}
