/**
 * The fixed correspondence between Elmer element-type codes and Salome
 * entity-type names (`elemTypeNames`), and its inversion (`invElemType`).
 */
module ElementTypes {
  import opened MeshData

  /**
   * `elemTypeNames` as the sorted list of its items. The Python keys are the
   * strings "202" .. "808"; all have three digits, so sorting them as strings
   * gives the numeric order used here.
   */
  const TypeTable: seq<(int, string)> :=
    [(202, "Entity_Edge"), (303, "Entity_Triangle"), (404, "Entity_Quadrangle"),
     (504, "Entity_Tetra"), (605, "Entity_Pyramid"), (706, "Entity_Hexagonal_Prism"),
     (808, "Entity_Hexa")]

  predicate CodesAscending(tbl: seq<(int, string)>)
  {
    forall i, j :: 0 <= i < j < |tbl| ==> tbl[i].0 < tbl[j].0
  }

  predicate CodesDistinct(tbl: seq<(int, string)>)
  {
    forall i, j :: 0 <= i < j < |tbl| ==> tbl[i].0 != tbl[j].0
  }

  predicate NamesDistinct(tbl: seq<(int, string)>)
  {
    forall i, j :: 0 <= i < j < |tbl| ==> tbl[i].1 != tbl[j].1
  }

  predicate HasName(tbl: seq<(int, string)>, name: string)
  {
    exists i :: 0 <= i < |tbl| && tbl[i].1 == name
  }

  /** Dictionary lookup of a name in the inverted table: the code listed with it. */
  function CodeOf(tbl: seq<(int, string)>, name: string): (r: Option<int>)
    ensures r.None? <==> !HasName(tbl, name)
    ensures r.Some? ==> exists i :: 0 <= i < |tbl| && tbl[i] == (r.value, name)
  {
    if |tbl| == 0 then None
    else if tbl[0].1 == name then Some(tbl[0].0)
    else
      var r := CodeOf(tbl[1..], name);
      assert forall i :: 1 <= i < |tbl| ==> tbl[i] == tbl[1..][i - 1];
      r
  }

  /** Dictionary lookup of a code in the table: the name listed with it. */
  function NameOf(tbl: seq<(int, string)>, code: int): (r: Option<string>)
    ensures r.None? <==> forall i :: 0 <= i < |tbl| ==> tbl[i].0 != code
    ensures r.Some? ==> exists i :: 0 <= i < |tbl| && tbl[i] == (code, r.value)
  {
    if |tbl| == 0 then None
    else if tbl[0].0 == code then Some(tbl[0].1)
    else
      var r := NameOf(tbl[1..], code);
      assert forall i :: 1 <= i < |tbl| ==> tbl[i] == tbl[1..][i - 1];
      r
  }

  /**
   * Inverting a table whose names and codes are distinct loses nothing: every entry is
   * found again from its name, and from its code.
   */
  lemma InversionFaithful(tbl: seq<(int, string)>, i: nat)
    requires NamesDistinct(tbl) && CodesDistinct(tbl)
    requires i < |tbl|
    ensures CodeOf(tbl, tbl[i].1) == Some(tbl[i].0)
    ensures NameOf(tbl, tbl[i].0) == Some(tbl[i].1)
  {
  }

  /** `invElemType.get(name)` followed by `int(...)`: None stands for the failing `int(None)`. */
  function TypeCode(name: string): (r: Option<int>)
    ensures r.None? <==> !HasName(TypeTable, name)
    ensures r.Some? ==> NameOf(TypeTable, r.value) == Some(name)
  {
    TypeTableWellFormed();
    var r := CodeOf(TypeTable, name);
    if r.Some? then
      var i :| 0 <= i < |TypeTable| && TypeTable[i] == (r.value, name);
      InversionFaithful(TypeTable, i);
      r
    else r
  }

  lemma TypeTableWellFormed()
    ensures NamesDistinct(TypeTable) && CodesAscending(TypeTable) && CodesDistinct(TypeTable)
  {
    TypeNamesDistinct();
  }

  /** Names of different lengths differ, and the two of length 11 differ at index 7. */
  lemma TypeNamesDistinct()
    ensures NamesDistinct(TypeTable)
  {
    var lengths := [11, 15, 17, 12, 14, 22, 11];
    assert forall i :: 0 <= i < |TypeTable| ==> |TypeTable[i].1| == lengths[i];
    forall i, j | 0 <= i < j < |TypeTable|
      ensures TypeTable[i].1 != TypeTable[j].1
    {
      if i == 0 && j == 6 {
        assert TypeTable[i].1[7] != TypeTable[j].1[7];
      } else {
        assert lengths[i] != lengths[j];
      }
    }
  }

  /** Both lookups agree on every entry of the fixed table. */
  lemma TypeTableRoundTrip(i: nat)
    requires i < |TypeTable|
    ensures TypeCode(TypeTable[i].1) == Some(TypeTable[i].0)
    ensures NameOf(TypeTable, TypeTable[i].0) == Some(TypeTable[i].1)
  {
    TypeTableWellFormed();
    InversionFaithful(TypeTable, i);
  }
}
