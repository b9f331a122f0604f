/** Construction of a service's action catalog and reaction list from its
    parsed documents, with every action name qualified by the service. */
module Loading {
  import opened Names
  import opened Descriptors

  datatype LoadError =
      /** a local action key containing a dot */
    | NamingError(key: string)
      /** a document that does not conform to its schema */
    | SchemaError

  datatype Result<+T> = Success(value: T) | Failure(error: LoadError)

  /** The action as stored in the catalog: its `not_after` references qualified. */
  function QualifyAction(service: string, a: Action): (r: Action)
    ensures r.command == a.command
    ensures r.notAfter.Some? <==> a.notAfter.Some?
    ensures r.notAfter.Some? ==>
              && |r.notAfter.value| == |a.notAfter.value|
              && forall i :: 0 <= i < |a.notAfter.value| ==> r.notAfter.value[i] == Qualify(service, a.notAfter.value[i])
  {
    if a.notAfter.None? then a else a.(notAfter := Some(QualifyAll(service, a.notAfter.value)))
  }

  /** The error a catalog entry raises, if any: the key is checked before the
      entry is validated. */
  function EntryFault(entry: (string, Action)): Option<LoadError> {
    if HasDot(entry.0) then Some(NamingError(entry.0))
    else if !ActionConforms(entry.1) then Some(SchemaError)
    else None
  }

  /** Entry `i` is the first faulty entry of `desc`. */
  predicate FirstFault(desc: seq<(string, Action)>, i: int) {
    0 <= i < |desc| && EntryFault(desc[i]).Some?
    && forall j :: 0 <= j < i ==> EntryFault(desc[j]).None?
  }

  /** No later entry of `desc` has the same key as entry `i`. */
  predicate LastWithKey(desc: seq<(string, Action)>, i: int) {
    0 <= i < |desc| && forall j :: i < j < |desc| ==> desc[j].0 != desc[i].0
  }

  /** The action catalog of `service`, from its action document given as
      (local key, action) entries in the order they are visited. */
  function GetServiceActions(service: string, desc: seq<(string, Action)>): (r: Result<map<string, Action>>)
    ensures r.Success? <==> forall i :: 0 <= i < |desc| ==> !HasDot(desc[i].0) && ActionConforms(desc[i].1)
    ensures r.Failure? ==> exists i :: FirstFault(desc, i) && EntryFault(desc[i]) == Some(r.error)
    ensures r.Success? ==> r.value.Keys == set i | 0 <= i < |desc| :: Prefixed(service, desc[i].0)
    ensures r.Success? ==> forall i :: LastWithKey(desc, i) ==>
              r.value[Prefixed(service, desc[i].0)] == QualifyAction(service, desc[i].1)
    decreases |desc|
  {
    if desc == [] then Success(map[])
    else
      var init := desc[..|desc| - 1];
      var last := desc[|desc| - 1];
      assert desc == init + [last];
      var prev := GetServiceActions(service, init);
      if prev.Failure? then
        FaultInInit(init, last, prev.error);
        prev
      else
        var fault := EntryFault(last);
        if fault.Some? then
          FaultAtLast(init, last);
          Failure(fault.value)
        else
          NoFault(init, last);
          KeysAfterUpdate(service, init, last, prev.value);
          ValuesAfterUpdate(service, init, last, prev.value);
          Success(prev.value[Prefixed(service, last.0) := QualifyAction(service, last.1)])
  }

  lemma FaultInInit(init: seq<(string, Action)>, last: (string, Action), e: LoadError)
    requires exists i :: FirstFault(init, i) && EntryFault(init[i]) == Some(e)
    ensures exists i :: FirstFault(init + [last], i) && EntryFault((init + [last])[i]) == Some(e)
  {
    var i :| FirstFault(init, i) && EntryFault(init[i]) == Some(e);
    var desc := init + [last];
    assert forall j :: 0 <= j <= i ==> desc[j] == init[j];
    assert FirstFault(desc, i);
  }

  lemma FaultAtLast(init: seq<(string, Action)>, last: (string, Action))
    requires forall i :: 0 <= i < |init| ==> !HasDot(init[i].0) && ActionConforms(init[i].1)
    requires EntryFault(last).Some?
    ensures exists i :: FirstFault(init + [last], i) && EntryFault((init + [last])[i]) == EntryFault(last)
  {
    var desc := init + [last];
    assert forall j :: 0 <= j < |init| ==> desc[j] == init[j];
    assert FirstFault(desc, |init|);
  }

  lemma NoFault(init: seq<(string, Action)>, last: (string, Action))
    requires forall i :: 0 <= i < |init| ==> !HasDot(init[i].0) && ActionConforms(init[i].1)
    requires EntryFault(last).None?
    ensures forall i :: 0 <= i < |init + [last]| ==> !HasDot((init + [last])[i].0) && ActionConforms((init + [last])[i].1)
  {
    var desc := init + [last];
    forall i | 0 <= i < |desc| ensures !HasDot(desc[i].0) && ActionConforms(desc[i].1) {
      if i < |init| { assert desc[i] == init[i]; }
    }
  }

  lemma KeysAfterUpdate(service: string, init: seq<(string, Action)>, last: (string, Action), prev: map<string, Action>)
    requires prev.Keys == set i | 0 <= i < |init| :: Prefixed(service, init[i].0)
    ensures (prev[Prefixed(service, last.0) := QualifyAction(service, last.1)]).Keys
            == set i | 0 <= i < |init + [last]| :: Prefixed(service, (init + [last])[i].0)
  {
    var desc := init + [last];
    var lhs := (prev[Prefixed(service, last.0) := QualifyAction(service, last.1)]).Keys;
    var rhs := set i | 0 <= i < |desc| :: Prefixed(service, desc[i].0);
    forall k | k in rhs ensures k in lhs {
      var i :| 0 <= i < |desc| && k == Prefixed(service, desc[i].0);
      if i < |init| { assert desc[i] == init[i]; }
    }
    forall k | k in lhs ensures k in rhs {
      if k != Prefixed(service, last.0) {
        var i :| 0 <= i < |init| && k == Prefixed(service, init[i].0);
        assert desc[i] == init[i];
      } else {
        assert desc[|init|] == last;
      }
    }
  }

  lemma ValuesAfterUpdate(service: string, init: seq<(string, Action)>, last: (string, Action), prev: map<string, Action>)
    requires prev.Keys == set i | 0 <= i < |init| :: Prefixed(service, init[i].0)
    requires forall i :: LastWithKey(init, i) ==>
               prev[Prefixed(service, init[i].0)] == QualifyAction(service, init[i].1)
    ensures var m := prev[Prefixed(service, last.0) := QualifyAction(service, last.1)];
            forall i :: LastWithKey(init + [last], i) ==>
              Prefixed(service, (init + [last])[i].0) in m
              && m[Prefixed(service, (init + [last])[i].0)] == QualifyAction(service, (init + [last])[i].1)
  {
    var desc := init + [last];
    var m := prev[Prefixed(service, last.0) := QualifyAction(service, last.1)];
    forall i | LastWithKey(desc, i)
      ensures Prefixed(service, desc[i].0) in m && m[Prefixed(service, desc[i].0)] == QualifyAction(service, desc[i].1)
    {
      if i < |init| {
        assert desc[i] == init[i];
        assert forall j :: i < j < |init| ==> desc[j] == init[j];
        assert LastWithKey(init, i);
        assert desc[|init|] == last;
        if Prefixed(service, desc[i].0) == Prefixed(service, last.0) {
          PrefixedInjectiveKey(service, desc[i].0, last.0);
        }
      }
    }
  }

  /** The reactions of `reactions` with every `execute` reference qualified. */
  function QualifyReactions(service: string, reactions: seq<Reaction>): (r: seq<Reaction>)
    ensures |r| == |reactions|
    ensures forall i :: 0 <= i < |reactions| ==>
              r[i].when == reactions[i].when && r[i].execute == QualifyAll(service, reactions[i].execute)
  {
    if reactions == [] then []
    else [reactions[0].(execute := QualifyAll(service, reactions[0].execute))]
         + QualifyReactions(service, reactions[1..])
  }

  /** The reaction list of `service`: the whole document is validated first,
      then each reaction's `execute` list is qualified. */
  function GetReactions(service: string, desc: seq<Reaction>): (r: Result<seq<Reaction>>)
    ensures r.Success? <==> forall i :: 0 <= i < |desc| ==> ReactionConforms(desc[i])
    ensures r.Failure? ==> r.error == SchemaError
    ensures r.Success? ==> |r.value| == |desc|
    ensures r.Success? ==> forall i :: 0 <= i < |desc| ==>
              r.value[i].when == desc[i].when
              && |r.value[i].execute| == |desc[i].execute|
              && forall j :: 0 <= j < |desc[i].execute| ==>
                   r.value[i].execute[j] == Qualify(service, desc[i].execute[j])
  {
    if forall i :: 0 <= i < |desc| ==> ReactionConforms(desc[i])
    then Success(QualifyReactions(service, desc))
    else Failure(SchemaError)
  }
}
