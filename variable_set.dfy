/** The variable set of `us_libraries`: an object whose attributes, named by
    short variable codes, hold the variables' names. */
module VariableSets {
  import opened Collections

  /** A record of the list `add_variables` takes: a string-keyed dict. */
  type Record = map<string, string>

  const ShortNameKey := "short_name"
  const VariableNameKey := "variable_name"

  /** Whether `add_variables` reads a record without raising. */
  predicate Complete(r: Record)
  {
    ShortNameKey in r && VariableNameKey in r
  }

  /** The number of records applied before the first incomplete one. */
  function AppliedCount(records: seq<Record>): (n: nat)
    ensures n <= |records|
    ensures forall i :: 0 <= i < n ==> ShortNameKey in records[i] && VariableNameKey in records[i]
    ensures n < |records| ==> !Complete(records[n])
  {
    if records == [] || !Complete(records[0]) then 0
    else
      var n := AppliedCount(records[1..]);
      assert forall i :: 1 <= i < n + 1 ==> records[i] == records[1..][i - 1];
      1 + n
  }

  /** The attribute assignments of complete records, in order. */
  function Assignments(records: seq<Record>): (ps: seq<(string, string)>)
    requires forall i :: 0 <= i < |records| ==> ShortNameKey in records[i] && VariableNameKey in records[i]
    ensures |ps| == |records|
    ensures forall i :: 0 <= i < |records| ==>
      ps[i] == (records[i][ShortNameKey], records[i][VariableNameKey])
  {
    seq(|records|, i requires 0 <= i < |records| => (records[i][ShortNameKey], records[i][VariableNameKey]))
  }

  /** The attributes after `add_variables(records)`: the records before the
      first incomplete one are applied in order, and stay applied when it raises. */
  function Added(attrs: map<string, string>, records: seq<Record>): map<string, string>
  {
    attrs + Assign(Assignments(records[..AppliedCount(records)]))
  }

  /** The key whose absence makes `add_variables` raise on an incomplete
      record: `short_name` is looked up first. */
  function MissingKey(r: Record): string
    requires !Complete(r)
  {
    if ShortNameKey !in r then ShortNameKey else VariableNameKey
  }

  /** Each short name applied ends up holding the variable name of the last
      applied record that carries it. */
  lemma AddedLastWins(attrs: map<string, string>, records: seq<Record>, i: nat)
    requires i < AppliedCount(records)
    requires forall j :: i < j < AppliedCount(records) ==> records[j][ShortNameKey] != records[i][ShortNameKey]
    ensures records[i][ShortNameKey] in Added(attrs, records)
    ensures Added(attrs, records)[records[i][ShortNameKey]] == records[i][VariableNameKey]
  {
    var applied := records[..AppliedCount(records)];
    AssignLastWins(Assignments(applied), i);
  }

  /** Attributes no applied record names keep their values. */
  lemma AddedKeepsOthers(attrs: map<string, string>, records: seq<Record>, name: string)
    requires forall j :: 0 <= j < AppliedCount(records) ==> records[j][ShortNameKey] != name
    ensures name in Added(attrs, records) <==> name in attrs
    ensures name in attrs ==> Added(attrs, records)[name] == attrs[name]
  {
    var ps := Assignments(records[..AppliedCount(records)]);
    assert name !in Assign(ps) by {
      assert forall j :: 0 <= j < |ps| ==> ps[j].0 != name;
    }
  }

  /** No records, no change; and a first record without a short name changes
      nothing either. */
  lemma AddedNothing(attrs: map<string, string>, records: seq<Record>)
    requires records == [] || ShortNameKey !in records[0]
    ensures Added(attrs, records) == attrs
  {
    assert records[..0] == [];
    MergeIntoEmptyRight(attrs);
  }

  lemma MergeIntoEmptyRight(attrs: map<string, string>)
    ensures attrs + Assign(Assignments([])) == attrs
  {
    assert Assignments([]) == [];
  }

  /** Applying one more complete record sets its short name. */
  lemma AddedStep(start: map<string, string>, records: seq<Record>, i: nat)
    requires i < AppliedCount(records)
    ensures start + Assign(Assignments(records[..i + 1]))
         == (start + Assign(Assignments(records[..i])))[records[i][ShortNameKey] := records[i][VariableNameKey]]
  {
    var ps, p := Assignments(records[..i]), (records[i][ShortNameKey], records[i][VariableNameKey]);
    assert Assignments(records[..i + 1]) == ps + [p];
    SnocParts(ps, p);
    MergeUpdate(start, Assign(ps), p.0, p.1);
  }

  /** A `VariableSet`: the attributes set on it so far. */
  class VariableSet {
    var attrs: map<string, string>

    constructor ()
      ensures attrs == map[]
    {
      attrs := map[];
    }

    /** `add_variables(description_to_variable)`: sets each record's
        `short_name` attribute to its `variable_name`, in order; the first
        incomplete record raises `KeyError` with the missing key, and the
        records before it stay applied. */
    method AddVariables(records: seq<Record>) returns (error: Option<string>)
      modifies this
      ensures attrs == Added(old(attrs), records)
      ensures error.None? <==> AppliedCount(records) == |records|
      ensures error.Some? ==> error.value == MissingKey(records[AppliedCount(records)])
    {
      ghost var start := attrs;
      ghost var n := AppliedCount(records);
      for i := 0 to |records|
        invariant i <= n
        invariant attrs == start + Assign(Assignments(records[..i]))
      {
        var record := records[i];
        if ShortNameKey !in record {
          return Some(ShortNameKey);
        }
        var shortName := record[ShortNameKey];
        if VariableNameKey !in record {
          return Some(VariableNameKey);
        }
        var variable := record[VariableNameKey];
        AddedStep(start, records, i);
        attrs := attrs[shortName := variable];
      }
      assert records[..|records|] == records;
      error := None;
    }
  }

  /** The data files of a survey year, by the value `DataFileType` gives each. */
  datatype DataFileType = SystemData | StateSummary | OutletData
  {
    function Value(): (v: string)
      ensures v in {"system_data", "state_summary", "outlet_data"}
    {
      match this
      case SystemData => "system_data"
      case StateSummary => "state_summary"
      case OutletData => "outlet_data"
    }
  }

  /** `DataFileType(value)`: the member with that value, if any. */
  function DataFileTypeOf(v: string): (r: Option<DataFileType>)
    ensures r.Some? ==> r.value.Value() == v
    ensures r.None? ==> v !in {"system_data", "state_summary", "outlet_data"}
  {
    if v == "system_data" then Some(SystemData)
    else if v == "state_summary" then Some(StateSummary)
    else if v == "outlet_data" then Some(OutletData)
    else None
  }

  /** Each member is found again by its value, so no two share one. */
  lemma DataFileTypeValues(t: DataFileType)
    ensures DataFileTypeOf(t.Value()) == Some(t)
    ensures forall u: DataFileType :: u.Value() == t.Value() ==> u == t
  {
    assert "system_data"[0] == 's' && "state_summary"[0] == 's';
    assert "system_data"[1] == 'y' && "state_summary"[1] == 't';
  }
}
