/**
 * The structure tree the server reports for a message (`imap_fetchstructure`)
 * and the parameter map `parsePart` builds for one leaf of it.
 */
module MimeParts {
  import opened Wrappers
  import opened PhpStrings

  // Body type codes (the `type` field).
  const TYPETEXT: int := 0
  const TYPEMULTIPART: int := 1
  const TYPEMESSAGE: int := 2
  const TYPEAPPLICATION: int := 3
  const TYPEOTHER: int := 8

  // Transfer-encoding codes (the `encoding` field).
  const ENC7BIT: int := 0
  const ENC8BIT: int := 1
  const ENCBINARY: int := 2
  const ENCBASE64: int := 3
  const ENCQUOTEDPRINTABLE: int := 4
  const ENCOTHER: int := 5

  /** One row of `parameters` or `dparameters`. */
  datatype Param = Param(attribute: string, value: string)

  /**
   * One node of the structure tree. The `if*` flags say whether the
   * parameter lists are present; `disposition` is None when it is not set;
   * `parts` is empty for a leaf.
   */
  datatype Part = Part(
    mediaType: int,
    subtype: string,
    encoding: int,
    disposition: Option<string>,
    ifparameters: bool,
    parameters: seq<Param>,
    ifdparameters: bool,
    dparameters: seq<Param>,
    parts: seq<Part>)

  /**
   * `$parameters[strtolower($row->attribute)] = $row->value` for each row, in
   * order: every key it adds is lower-case.
   */
  function AddRows(m: map<string, string>, rows: seq<Param>): (r: map<string, string>)
    ensures forall k :: k in r && k !in m ==> LowerCased(k)
    decreases |rows|
  {
    if rows == [] then m
    else
      var last := rows[|rows| - 1];
      AddRows(m, rows[..|rows| - 1])[ToLower(last.attribute) := last.value]
  }

  /** The rows a flag switches on: a list whose `if*` flag is unset is not read. */
  function Enabled(flag: bool, rows: seq<Param>): seq<Param>
  {
    if flag then rows else []
  }

  /** The parameter map of a leaf: `parameters` first, then `dparameters`; every key is lower-case. */
  function ParamMap(p: Part): (r: map<string, string>)
    ensures forall k :: k in r ==> LowerCased(k)
  {
    AddRows(AddRows(map[], Enabled(p.ifparameters, p.parameters)), Enabled(p.ifdparameters, p.dparameters))
  }

  /** The row's lower-cased attribute is `k`. */
  predicate Names(row: Param, k: string)
  {
    ToLower(row.attribute) == k
  }

  /** Row `j` names `k` and no later row does. */
  predicate LastNaming(rows: seq<Param>, j: int, k: string)
  {
    0 <= j < |rows| && Names(rows[j], k) && forall j' :: j < j' < |rows| ==> !Names(rows[j'], k)
  }

  /** Folding rows into a map: a key is present iff it was present before or some row names it. */
  lemma {:induction false} AddRowsKeys(m: map<string, string>, rows: seq<Param>, k: string)
    ensures k in AddRows(m, rows) <==> k in m || exists j :: 0 <= j < |rows| && Names(rows[j], k)
    decreases |rows|
  {
    if rows != [] {
      var init := rows[..|rows| - 1];
      AddRowsKeys(m, init, k);
      if k in AddRows(m, init) && k !in m {
        var j :| 0 <= j < |init| && Names(init[j], k);
        assert rows[j] == init[j];
      }
      if exists j :: 0 <= j < |rows| && Names(rows[j], k) {
        var j :| 0 <= j < |rows| && Names(rows[j], k);
        if j < |init| {
          assert init[j] == rows[j];
        }
      }
    }
  }

  /** The value of a key is the value of the last row naming it: later rows overwrite earlier ones. */
  lemma {:induction false} AddRowsLast(m: map<string, string>, rows: seq<Param>, k: string, j: int)
    requires LastNaming(rows, j, k)
    ensures k in AddRows(m, rows) && AddRows(m, rows)[k] == rows[j].value
    decreases |rows|
  {
    var n := |rows| - 1;
    if j < n {
      var init := rows[..n];
      assert init[j] == rows[j];
      assert LastNaming(init, j, k) by {
        forall j' | j < j' < |init| ensures !Names(init[j'], k) {
          assert init[j'] == rows[j'];
        }
      }
      AddRowsLast(m, init, k, j);
      assert !Names(rows[n], k);
    }
  }

  /** A key no row names keeps its old value. */
  lemma {:induction false} AddRowsUntouched(m: map<string, string>, rows: seq<Param>, k: string)
    requires k in m
    requires forall j :: 0 <= j < |rows| ==> !Names(rows[j], k)
    ensures k in AddRows(m, rows) && AddRows(m, rows)[k] == m[k]
    decreases |rows|
  {
    if rows != [] {
      var init := rows[..|rows| - 1];
      assert forall j :: 0 <= j < |init| ==> init[j] == rows[j];
      AddRowsUntouched(m, init, k);
      assert !Names(rows[|rows| - 1], k);
    }
  }

  /**
   * The parameter map of a leaf: a lower-cased key is present iff some
   * enabled row of either list names it.
   */
  lemma ParamMapKeys(p: Part, k: string)
    ensures k in ParamMap(p) <==>
      (exists j :: 0 <= j < |Enabled(p.ifparameters, p.parameters)| && Names(Enabled(p.ifparameters, p.parameters)[j], k)) ||
      (exists j :: 0 <= j < |Enabled(p.ifdparameters, p.dparameters)| && Names(Enabled(p.ifdparameters, p.dparameters)[j], k))
  {
    var ps := Enabled(p.ifparameters, p.parameters);
    AddRowsKeys(map[], ps, k);
    AddRowsKeys(AddRows(map[], ps), Enabled(p.ifdparameters, p.dparameters), k);
  }

  /** A `dparameters` row overwrites a `parameters` row of the same lower-cased name. */
  lemma ParamMapDispositionWins(p: Part, k: string, j: int)
    requires p.ifdparameters && LastNaming(p.dparameters, j, k)
    ensures k in ParamMap(p) && ParamMap(p)[k] == p.dparameters[j].value
  {
    AddRowsLast(AddRows(map[], Enabled(p.ifparameters, p.parameters)), p.dparameters, k, j);
  }

  /** A key that no enabled `dparameters` row names takes the last `parameters` row naming it. */
  lemma ParamMapFromParameters(p: Part, k: string, j: int)
    requires p.ifparameters && LastNaming(p.parameters, j, k)
    requires forall i :: 0 <= i < |Enabled(p.ifdparameters, p.dparameters)| ==>
      !Names(Enabled(p.ifdparameters, p.dparameters)[i], k)
    ensures k in ParamMap(p) && ParamMap(p)[k] == p.parameters[j].value
  {
    AddRowsLast(map[], p.parameters, k, j);
    AddRowsUntouched(AddRows(map[], p.parameters), Enabled(p.ifdparameters, p.dparameters), k);
  }

  /** The loop of `parsePart` that builds the parameter map of a leaf. */
  method CollectParameters(p: Part) returns (params: map<string, string>)
    ensures params == ParamMap(p)
  {
    params := map[];
    if p.ifparameters {
      var i := 0;
      while i < |p.parameters|
        invariant 0 <= i <= |p.parameters|
        invariant params == AddRows(map[], p.parameters[..i])
      {
        var row := p.parameters[i];
        assert p.parameters[..i + 1][..i] == p.parameters[..i];
        params := params[ToLower(row.attribute) := row.value];
        i := i + 1;
      }
      assert p.parameters[..i] == p.parameters;
    }
    ghost var base := params;
    assert base == AddRows(map[], Enabled(p.ifparameters, p.parameters));
    if p.ifdparameters {
      var i := 0;
      while i < |p.dparameters|
        invariant 0 <= i <= |p.dparameters|
        invariant params == AddRows(base, p.dparameters[..i])
      {
        var row := p.dparameters[i];
        assert p.dparameters[..i + 1][..i] == p.dparameters[..i];
        params := params[ToLower(row.attribute) := row.value];
        i := i + 1;
      }
      assert p.dparameters[..i] == p.dparameters;
    }
  }
}
