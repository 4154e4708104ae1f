/**
 * The part of `GSXNextGen.Execute` that does not leave the process: it resets the static
 * fault table, builds the request envelope, fills the fault table from a SOAP `Fault` element
 * of the response if there is one, and looks up the element named after the result type.
 */
module GsxExecute {
  import opened Wrappers
  import opened XmlBuilder
  import opened SoapEnvelope
  import opened Response

  /** What can escape Execute here: `Hashtable.Add` throws on a key that is already present. */
  datatype ExecuteError = DuplicateFaultKey(key: string)

  /**
   * The fault table after `Hashtable.Add(name, value)` over a run of elements: the entries
   * added, and the key of the Add that threw, if one did (nothing is added after it).
   */
  datatype FaultFill = FaultFill(entries: map<string, string>, duplicate: Option<string>)

  predicate AllElements(ds: seq<Node>) {
    forall i :: 0 <= i < |ds| ==> ds[i].Element?
  }

  function FillFault(ds: seq<Node>): FaultFill
    requires AllElements(ds)
  {
    if ds == [] then FaultFill(map[], None)
    else
      var prev := FillFault(ds[..|ds| - 1]);
      var d := ds[|ds| - 1];
      if prev.duplicate.Some? then prev
      else if d.name in prev.entries then FaultFill(prev.entries, Some(d.name))
      else FaultFill(prev.entries[d.name := Value(d)], None)
  }

  /** No two of the elements share a name. */
  predicate DistinctNames(ds: seq<Node>)
    requires AllElements(ds)
  {
    forall i, j :: 0 <= i < j < |ds| ==> ds[i].name != ds[j].name
  }

  function Names(ds: seq<Node>): set<string>
    requires AllElements(ds)
  {
    set i | 0 <= i < |ds| :: ds[i].name
  }

  /** The names of a run are those before its last element plus that element's. */
  lemma NamesSnoc(ds: seq<Node>)
    requires AllElements(ds) && ds != []
    ensures Names(ds) == Names(ds[..|ds| - 1]) + {ds[|ds| - 1].name}
  {
    var init := ds[..|ds| - 1];
    forall n | n in Names(ds) ensures n in Names(init) + {ds[|ds| - 1].name} {
      var i :| 0 <= i < |ds| && ds[i].name == n;
      if i < |init| {
        assert init[i].name == n;
      }
    }
    forall n | n in Names(init) ensures n in Names(ds) {
      var i :| 0 <= i < |init| && init[i].name == n;
      assert ds[i].name == n;
    }
  }

  /**
   * With distinct names every Add succeeds: the table has exactly one entry per element,
   * mapping its name to its text value.
   */
  lemma {:induction false} FillFaultDistinct(ds: seq<Node>)
    requires AllElements(ds) && DistinctNames(ds)
    ensures FillFault(ds).duplicate.None?
    ensures FillFault(ds).entries.Keys == Names(ds)
    ensures forall i :: 0 <= i < |ds| ==> FillFault(ds).entries[ds[i].name] == Value(ds[i])
  {
    if ds != [] {
      var init := ds[..|ds| - 1];
      var d := ds[|ds| - 1];
      assert forall i :: 0 <= i < |init| ==> init[i] == ds[i];
      FillFaultDistinct(init);
      NamesSnoc(ds);
      assert d.name !in Names(init) by {
        forall n | n in Names(init) ensures n != d.name {
          var i :| 0 <= i < |init| && init[i].name == n;
        }
      }
      var prev := FillFault(init).entries;
      forall i | 0 <= i < |ds| ensures FillFault(ds).entries[ds[i].name] == Value(ds[i]) {
        if i < |init| {
          assert prev[init[i].name] == Value(ds[i]);
        }
      }
    }
  }

  /** The first element whose name already occurred before it. */
  predicate IsFirstRepeat(ds: seq<Node>, j: int)
    requires AllElements(ds)
  {
    0 <= j < |ds| && ds[j].name in Names(ds[..j]) && DistinctNames(ds[..j])
  }

  /**
   * With a repeated name the Add for the first repeat throws: the error names that element,
   * and the table holds the elements before it.
   */
  lemma {:induction false} FillFaultRepeat(ds: seq<Node>)
    requires AllElements(ds) && !DistinctNames(ds)
    ensures exists j ::
      (IsFirstRepeat(ds, j) && FillFault(ds) == FaultFill(FillFault(ds[..j]).entries, Some(ds[j].name)))
  {
    var init := ds[..|ds| - 1];
    var d := ds[|ds| - 1];
    assert forall i :: 0 <= i < |init| ==> init[i] == ds[i];
    assert init[..|init|] == init;
    if DistinctNames(init) {
      FillFaultDistinct(init);
      var i, j :| 0 <= i < j < |ds| && ds[i].name == ds[j].name;
      assert j == |ds| - 1;
      assert d.name in Names(init) by {
        assert init[i].name == d.name;
      }
      assert IsFirstRepeat(ds, |ds| - 1);
    } else {
      FillFaultRepeat(init);
      var j :| IsFirstRepeat(init, j) &&
        FillFault(init) == FaultFill(FillFault(init[..j]).entries, Some(init[j].name));
      assert init[..j] == ds[..j];
      assert IsFirstRepeat(ds, j);
    }
  }

  /** Once an Add has thrown, later elements change nothing. */
  lemma {:induction false} FillFaultStops(ds: seq<Node>, k: nat)
    requires AllElements(ds) && k <= |ds|
    requires FillFault(ds[..k]).duplicate.Some?
    ensures FillFault(ds) == FillFault(ds[..k])
    decreases |ds| - k
  {
    if k < |ds| {
      assert ds[..k + 1][..k] == ds[..k];
      FillFaultStops(ds, k + 1);
    } else {
      assert ds[..k] == ds;
    }
  }

  /** The table is complete exactly when the names are distinct. */
  lemma FillFaultSucceedsIffDistinct(ds: seq<Node>)
    requires AllElements(ds)
    ensures FillFault(ds).duplicate.None? <==> DistinctNames(ds)
  {
    if DistinctNames(ds) {
      FillFaultDistinct(ds);
    } else {
      FillFaultRepeat(ds);
    }
  }

  /** GSXNextGen, reduced to its static fault table. */
  class GsxNextGen {
    /** The static `FaultEntries` hashtable; None is null. */
    var faultEntries: Option<map<string, string>>

    constructor ()
      ensures faultEntries == None
    {
      faultEntries := None;
    }

    /**
     * The loop of Execute over the fault element's descendants: each name is added with its
     * value, and the first name already present stops the fill (`Hashtable.Add` throws).
     */
    method FillFaultTable(ds: seq<Node>) returns (duplicate: Option<string>)
      requires AllElements(ds)
      modifies this
      ensures faultEntries == Some(FillFault(ds).entries) && duplicate == FillFault(ds).duplicate
    {
      faultEntries := Some(map[]);
      for i := 0 to |ds|
        invariant faultEntries == Some(FillFault(ds[..i]).entries)
        invariant FillFault(ds[..i]).duplicate.None?
      {
        var el := ds[i];
        assert ds[..i + 1][..i] == ds[..i];
        if el.name in faultEntries.value {
          FillFaultStops(ds, i + 1);
          return Some(el.name);
        }
        faultEntries := Some(faultEntries.value[el.name := Value(el)]);
      }
      assert ds[..|ds|] == ds;
      duplicate := None;
    }

    /**
     * Execute: resets the fault table, builds the request envelope (returned as `request`: it is
     * what is handed to the transport), and handles `response`, the transport's parsed reply.
     * A `Fault` element fills the table from its descendants; the result is the element named
     * after the result type, or None (`default(T)`) when there is no such element.
     */
    method Execute(wrapper: Option<Obj>, envelope: Envelope, resultTypeName: string, response: seq<Node>)
      returns (request: string, result: Result<Option<Node>, ExecuteError>)
      modifies this
      ensures request == EnvelopeText(envelope, ToXml(wrapper))
      ensures GetElement(response, "Fault").None? ==>
        faultEntries == None && result == Success(GetElement(response, resultTypeName))
      ensures GetElement(response, "Fault").Some? ==>
        var fill := FillFault(Descendants(GetElement(response, "Fault").value.content));
        faultEntries == Some(fill.entries) &&
        result == if fill.duplicate.Some? then Failure(DuplicateFaultKey(fill.duplicate.value))
                  else Success(GetElement(response, resultTypeName))
    {
      faultEntries := None;
      request := ParseWrapper(wrapper, envelope);

      var fault := GetElement(response, "Fault");
      if fault.Some? {
        var duplicate := FillFaultTable(Descendants(fault.value.content));
        if duplicate.Some? {
          return request, Failure(DuplicateFaultKey(duplicate.value));
        }
      }

      var element := GetElement(response, resultTypeName);
      result := Success(element);
    }
  }
}
