/**
 * mesh.header: the counts line, the number of entity types present (less
 * one), and one `code count` line per table type that has elements.
 */
module Header {
  import opened MeshData
  import opened ElementTypes

  /** `elems.get(name)` as a number: missing and zero entries both read as 0. */
  function InfoCount(info: map<string, nat>, name: string): nat
  {
    if name in info then info[name] else 0
  }

  /** The lines the header loop writes for the first |tbl| entries of the sorted table. */
  function TypeLines(tbl: seq<(int, string)>, info: map<string, nat>): (lines: seq<seq<int>>)
    ensures |lines| <= |tbl|
    ensures forall k :: 0 <= k < |lines| ==> |lines[k]| == 2 && lines[k][1] > 0
  {
    if |tbl| == 0 then []
    else
      var n := |tbl| - 1;
      var c := InfoCount(info, tbl[n].1);
      TypeLines(tbl[..n], info) + (if c > 0 then [[tbl[n].0, c]] else [])
  }

  /**
   * `len(elems.values())`: how many entity types `GetMeshInfo` reports with a
   * nonzero count (the node entry among them).
   */
  function NonzeroEntries(info: map<string, nat>): (n: nat)
    ensures n <= |info|
    ensures n > 0 <==> exists name :: name in info && info[name] > 0
  {
    var present := set name | name in info && info[name] > 0;
    assert present <= info.Keys;
    SubsetCardinality(present, info.Keys);
    assert forall name :: name in info && info[name] > 0 ==> name in present;
    |present|
  }

  lemma SubsetCardinality(a: set<string>, b: set<string>)
    requires a <= b
    ensures |a| <= |b|
  {
    assert b == a + (b - a);
  }

  /** The three kinds of header line, in the order the exporter writes them. */
  function HeaderLines(m: Mesh): (h: seq<seq<int>>)
    ensures 2 <= |h| <= 2 + |TypeTable|
    ensures h[0] == [m.nbNodes, |m.volumeIDs|, |m.edgeIDs| + |m.faceIDs|]
    ensures |h[1]| == 1 && h[1][0] + 1 <= |m.meshInfo|
    ensures forall k :: 2 <= k < |h| ==> |h[k]| == 2 && h[k][1] > 0
  {
    [[m.nbNodes, |m.volumeIDs|, NbEdgesFaces(m)], [NonzeroEntries(m.meshInfo) - 1]]
      + TypeLines(TypeTable, m.meshInfo)
  }

  /** The loop over `sorted(elemTypeNames.items())` that writes the type lines. */
  method HeaderTypeLines(info: map<string, nat>) returns (lines: seq<seq<int>>)
    ensures lines == TypeLines(TypeTable, info)
  {
    lines := [];
    for i := 0 to |TypeTable|
      invariant lines == TypeLines(TypeTable[..i], info)
    {
      var (nbr, ele) := TypeTable[i];
      assert TypeTable[..i + 1][..i] == TypeTable[..i];
      if InfoCount(info, ele) > 0 {
        lines := lines + [[nbr, InfoCount(info, ele)]];
      }
    }
    assert TypeTable[..|TypeTable|] == TypeTable;
  }

  /** The table entry a type line was written for. */
  lemma {:induction false} TypeLineSource(tbl: seq<(int, string)>, info: map<string, nat>, k: nat)
    returns (i: nat)
    requires k < |TypeLines(tbl, info)|
    ensures i < |tbl| && InfoCount(info, tbl[i].1) > 0
    ensures TypeLines(tbl, info)[k] == [tbl[i].0, InfoCount(info, tbl[i].1)]
  {
    var n := |tbl| - 1;
    var prefix := TypeLines(tbl[..n], info);
    if k < |prefix| {
      i := TypeLineSource(tbl[..n], info, k);
      assert tbl[..n][i] == tbl[i];
    } else {
      i := n;
    }
  }

  /** Every table entry with a nonzero count has its type line. */
  lemma {:induction false} TypeLineWritten(tbl: seq<(int, string)>, info: map<string, nat>, i: nat)
    requires i < |tbl| && InfoCount(info, tbl[i].1) > 0
    ensures [tbl[i].0, InfoCount(info, tbl[i].1)] in TypeLines(tbl, info)
  {
    var n := |tbl| - 1;
    var prefix := TypeLines(tbl[..n], info);
    var lines := TypeLines(tbl, info);
    if i < n {
      assert tbl[..n][i] == tbl[i];
      TypeLineWritten(tbl[..n], info, i);
      var k :| 0 <= k < |prefix| && prefix[k] == [tbl[i].0, InfoCount(info, tbl[i].1)];
      assert lines[k] == prefix[k];
    } else {
      assert lines[|lines| - 1] == [tbl[n].0, InfoCount(info, tbl[n].1)];
    }
  }

  /** Over a table sorted by code, the type lines come out in strictly ascending code order. */
  lemma {:induction false} TypeLinesAscending(tbl: seq<(int, string)>, info: map<string, nat>)
    requires CodesAscending(tbl)
    ensures forall a, b :: 0 <= a < b < |TypeLines(tbl, info)| ==>
      TypeLines(tbl, info)[a][0] < TypeLines(tbl, info)[b][0]
  {
    if |tbl| > 0 {
      var n := |tbl| - 1;
      var prefix := TypeLines(tbl[..n], info);
      assert CodesAscending(tbl[..n]);
      TypeLinesAscending(tbl[..n], info);
      forall k | 0 <= k < |prefix| ensures prefix[k][0] < tbl[n].0 {
        var i := TypeLineSource(tbl[..n], info, k);
        assert tbl[..n][i] == tbl[i];
      }
    }
  }

  /** The header type lines of the fixed table: ascending codes, exactly the types present. */
  lemma HeaderTypeLinesSpec(info: map<string, nat>)
    ensures forall a, b :: 0 <= a < b < |TypeLines(TypeTable, info)| ==>
      TypeLines(TypeTable, info)[a][0] < TypeLines(TypeTable, info)[b][0]
    ensures forall i :: 0 <= i < |TypeTable| ==>
      (InfoCount(info, TypeTable[i].1) > 0 <==>
       [TypeTable[i].0, InfoCount(info, TypeTable[i].1)] in TypeLines(TypeTable, info))
  {
    TypeTableWellFormed();
    TypeLinesAscending(TypeTable, info);
    forall i | 0 <= i < |TypeTable|
      ensures InfoCount(info, TypeTable[i].1) > 0 <==>
              [TypeTable[i].0, InfoCount(info, TypeTable[i].1)] in TypeLines(TypeTable, info)
    {
      var lines := TypeLines(TypeTable, info);
      if InfoCount(info, TypeTable[i].1) > 0 {
        TypeLineWritten(TypeTable, info, i);
      }
    }
  }

  /** The names of the table entries whose `GetMeshInfo` count is nonzero. */
  function CountedNames(tbl: seq<(int, string)>, info: map<string, nat>): set<string>
  {
    set i | 0 <= i < |tbl| && InfoCount(info, tbl[i].1) > 0 :: tbl[i].1
  }

  /** Dropping the last table entry drops its name from the counted names, if it was counted. */
  lemma CountedNamesStep(tbl: seq<(int, string)>, info: map<string, nat>)
    requires |tbl| > 0
    ensures var n := |tbl| - 1;
      CountedNames(tbl, info) ==
        CountedNames(tbl[..n], info) + (if InfoCount(info, tbl[n].1) > 0 then {tbl[n].1} else {})
  {
    var n := |tbl| - 1;
    assert forall i :: 0 <= i < n ==> tbl[..n][i] == tbl[i];
  }

  /** The type lines of the first n table entries extend those of the first n - 1 by at most one line. */
  lemma TypeLinesPrefix(tbl: seq<(int, string)>, info: map<string, nat>, n: nat)
    requires 0 < n <= |tbl|
    ensures var c := InfoCount(info, tbl[n - 1].1);
      TypeLines(tbl[..n], info) == TypeLines(tbl[..n - 1], info) + (if c > 0 then [[tbl[n - 1].0, c]] else [])
  {
    assert tbl[..n][..n - 1] == tbl[..n - 1];
  }

  /** Dropping the last type line's entry: the type lines of the shorter table, and one more if counted. */
  lemma TypeLinesStep(tbl: seq<(int, string)>, info: map<string, nat>)
    requires |tbl| > 0
    ensures var n := |tbl| - 1;
      |TypeLines(tbl, info)| == |TypeLines(tbl[..n], info)| + (if InfoCount(info, tbl[n].1) > 0 then 1 else 0)
  {
  }

  lemma DistinctPrefix(tbl: seq<(int, string)>, info: map<string, nat>)
    requires |tbl| > 0 && NamesDistinct(tbl)
    ensures NamesDistinct(tbl[..|tbl| - 1])
    ensures tbl[|tbl| - 1].1 !in CountedNames(tbl[..|tbl| - 1], info)
  {
  }

  /** Over a table with distinct names, there is one type line per counted name. */
  lemma {:induction false} TypeLinesPerName(tbl: seq<(int, string)>, info: map<string, nat>)
    requires NamesDistinct(tbl)
    ensures |TypeLines(tbl, info)| == |CountedNames(tbl, info)|
  {
    if |tbl| > 0 {
      var n := |tbl| - 1;
      DistinctPrefix(tbl, info);
      TypeLinesPerName(tbl[..n], info);
      CountedNamesStep(tbl, info);
      TypeLinesStep(tbl, info);
    }
  }

  /** The nodes' entity name is not an element type of the table. */
  lemma NodeNotInTable()
    ensures !HasName(TypeTable, "Entity_Node")
  {
    forall i | 0 <= i < |TypeTable| ensures TypeTable[i].1 != "Entity_Node" {
      // the table names of length 11 differ from it at index 7
      assert TypeTable[i].1[..7] == "Entity_" && "Entity_Node"[7] == 'N';
    }
  }

  /**
   * Header line 2 is the number of element types the header lists when the
   * nodes have a nonzero entry and every other nonzero entry names a table type.
   */
  lemma HeaderLine2CountsTypes(info: map<string, nat>)
    requires InfoCount(info, "Entity_Node") > 0
    requires forall n :: n in info && info[n] > 0 && n != "Entity_Node" ==> HasName(TypeTable, n)
    ensures NonzeroEntries(info) - 1 == |TypeLines(TypeTable, info)|
  {
    TypeTableWellFormed();
    TypeLinesPerName(TypeTable, info);
    NodeNotInTable();
    var present := set name | name in info && info[name] > 0;
    var counted := CountedNames(TypeTable, info);
    assert present == counted + {"Entity_Node"};
    assert "Entity_Node" !in counted;
  }

  // ----- The type lines account for every element -----

  /** The sum of the counts column of the type lines. */
  function CountsColumn(lines: seq<seq<int>>): int
  {
    if |lines| == 0 then 0
    else CountsColumn(lines[..|lines| - 1]) + (if |lines[|lines| - 1]| > 1 then lines[|lines| - 1][1] else 0)
  }

  /** The sum, over the table, of the counts `GetMeshInfo` reports. */
  function InfoSum(tbl: seq<(int, string)>, info: map<string, nat>): int
  {
    if |tbl| == 0 then 0 else InfoSum(tbl[..|tbl| - 1], info) + InfoCount(info, tbl[|tbl| - 1].1)
  }

  /** How many of `ids` have entity-type name `name`. */
  function CountOfType(ids: seq<int>, geomType: map<int, string>, name: string): nat
  {
    if |ids| == 0 then 0
    else
      var e := ids[|ids| - 1];
      CountOfType(ids[..|ids| - 1], geomType, name) + (if e in geomType && geomType[e] == name then 1 else 0)
  }

  /** The sum, over the table, of the element counts per name. */
  function ElementSum(tbl: seq<(int, string)>, ids: seq<int>, geomType: map<int, string>): int
  {
    if |tbl| == 0 then 0
    else ElementSum(tbl[..|tbl| - 1], ids, geomType) + CountOfType(ids, geomType, tbl[|tbl| - 1].1)
  }

  /** How many table entries carry `name`. */
  function Hits(tbl: seq<(int, string)>, name: string): int
  {
    if |tbl| == 0 then 0 else Hits(tbl[..|tbl| - 1], name) + (if tbl[|tbl| - 1].1 == name then 1 else 0)
  }

  lemma {:induction false} CountsColumnIsInfoSum(tbl: seq<(int, string)>, info: map<string, nat>)
    ensures CountsColumn(TypeLines(tbl, info)) == InfoSum(tbl, info)
  {
    if |tbl| > 0 {
      var n := |tbl| - 1;
      CountsColumnIsInfoSum(tbl[..n], info);
      var prefix := TypeLines(tbl[..n], info);
      var c := InfoCount(info, tbl[n].1);
      if c > 0 {
        var lines := prefix + [[tbl[n].0, c]];
        assert TypeLines(tbl, info) == lines;
        assert lines[..|lines| - 1] == prefix;
        assert CountsColumn(lines) == CountsColumn(prefix) + c;
      } else {
        assert TypeLines(tbl, info) == prefix;
      }
    }
  }

  lemma {:induction false} InfoSumIsElementSum(tbl: seq<(int, string)>, info: map<string, nat>,
                                                ids: seq<int>, geomType: map<int, string>)
    requires forall i :: 0 <= i < |tbl| ==> InfoCount(info, tbl[i].1) == CountOfType(ids, geomType, tbl[i].1)
    ensures InfoSum(tbl, info) == ElementSum(tbl, ids, geomType)
  {
    if |tbl| > 0 {
      var n := |tbl| - 1;
      assert forall i :: 0 <= i < n ==> tbl[..n][i] == tbl[i];
      InfoSumIsElementSum(tbl[..n], info, ids, geomType);
    }
  }

  /** Adding one element adds one to the count of its own name. */
  lemma {:induction false} ElementSumStep(tbl: seq<(int, string)>, ids: seq<int>, geomType: map<int, string>)
    requires |ids| > 0 && ids[|ids| - 1] in geomType
    ensures ElementSum(tbl, ids, geomType) ==
      ElementSum(tbl, ids[..|ids| - 1], geomType) + Hits(tbl, geomType[ids[|ids| - 1]])
  {
    if |tbl| > 0 {
      ElementSumStep(tbl[..|tbl| - 1], ids, geomType);
    }
  }

  lemma {:induction false} HitsOnce(tbl: seq<(int, string)>, name: string)
    requires NamesDistinct(tbl) && HasName(tbl, name)
    ensures Hits(tbl, name) == 1
  {
    var n := |tbl| - 1;
    assert NamesDistinct(tbl[..n]);
    if tbl[n].1 == name {
      HitsNone(tbl[..n], name);
    } else {
      var i :| 0 <= i < |tbl| && tbl[i].1 == name;
      assert tbl[..n][i] == tbl[i];
      HitsOnce(tbl[..n], name);
    }
  }

  lemma {:induction false} HitsNone(tbl: seq<(int, string)>, name: string)
    requires forall i :: 0 <= i < |tbl| ==> tbl[i].1 != name
    ensures Hits(tbl, name) == 0
  {
    if |tbl| > 0 {
      var n := |tbl| - 1;
      assert forall i :: 0 <= i < n ==> tbl[..n][i] == tbl[i];
      HitsNone(tbl[..n], name);
    }
  }

  /** When every element's type is in the table, the per-type counts add up to the element count. */
  lemma {:induction false} ElementSumIsCount(tbl: seq<(int, string)>, ids: seq<int>, geomType: map<int, string>)
    requires NamesDistinct(tbl)
    requires forall k :: 0 <= k < |ids| ==> ids[k] in geomType && HasName(tbl, geomType[ids[k]])
    ensures ElementSum(tbl, ids, geomType) == |ids|
  {
    if |ids| == 0 {
      ElementSumZero(tbl, ids, geomType);
    } else {
      var n := |ids| - 1;
      assert forall k :: 0 <= k < n ==> ids[..n][k] == ids[k];
      ElementSumIsCount(tbl, ids[..n], geomType);
      ElementSumStep(tbl, ids, geomType);
      HitsOnce(tbl, geomType[ids[n]]);
    }
  }

  lemma {:induction false} ElementSumZero(tbl: seq<(int, string)>, ids: seq<int>, geomType: map<int, string>)
    requires |ids| == 0
    ensures ElementSum(tbl, ids, geomType) == 0
  {
    if |tbl| > 0 {
      ElementSumZero(tbl[..|tbl| - 1], ids, geomType);
    }
  }

  /**
   * When `GetMeshInfo` agrees with the elements' own types and every type is
   * in the table, the counts column of the type lines adds up to
   * NbVolumes + NbEdges + NbFaces.
   */
  lemma HeaderCountsEveryElement(m: Mesh)
    requires forall k :: 0 <= k < |ElemIDs(m)| ==>
      ElemIDs(m)[k] in m.geomType && HasName(TypeTable, m.geomType[ElemIDs(m)[k]])
    requires forall i :: 0 <= i < |TypeTable| ==>
      InfoCount(m.meshInfo, TypeTable[i].1) == CountOfType(ElemIDs(m), m.geomType, TypeTable[i].1)
    ensures CountsColumn(TypeLines(TypeTable, m.meshInfo)) == |m.volumeIDs| + NbEdgesFaces(m)
  {
    TypeTableWellFormed();
    CountsColumnIsInfoSum(TypeTable, m.meshInfo);
    InfoSumIsElementSum(TypeTable, m.meshInfo, ElemIDs(m), m.geomType);
    ElementSumIsCount(TypeTable, ElemIDs(m), m.geomType);
  }
}
