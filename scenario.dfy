/**
 * One concrete export: a single tetrahedron (element 5) bounded by four
 * triangles (elements 1..4), with no groups. It shows the header the code
 * writes for it, and that every file is determined by the exporter's contract.
 */
module Scenario {
  import opened MeshData
  import opened ElementTypes
  import opened GroupResolution
  import opened Header
  import opened Records
  import opened Export

  function Tetrahedron(): Mesh
  {
    Mesh(4, [], [1, 2, 3, 4], [5], [], [], 0,
         map["Entity_Node" := 4, "Entity_Triangle" := 4, "Entity_Tetra" := 1],
         map[1 := "Entity_Triangle", 2 := "Entity_Triangle", 3 := "Entity_Triangle",
             4 := "Entity_Triangle", 5 := "Entity_Tetra"],
         map[1 := [1, 2, 3], 2 := [1, 2, 4], 3 := [1, 3, 4], 4 := [2, 3, 4], 5 := [1, 2, 3, 4]],
         map[1 := [5], 2 := [5], 3 := [5], 4 := [5]])
  }

  /** The mesh meets what Salome guarantees: IDs 1..5, each typed, noded and, for the triangles, located. */
  lemma TetrahedronWellFormed()
    ensures WellFormed(Tetrahedron())
  {
    var m := Tetrahedron();
    assert forall e :: e in m.faceIDs ==> IsElement(m, e) && HasLocation(m, e) by {
      forall e | e in m.faceIDs ensures IsElement(m, e) && HasLocation(m, e) {
        assert e in {1, 2, 3, 4};
      }
    }
    assert IsElement(m, m.volumeIDs[0]);
    assert Distinct(ElemIDs(m)) by {
      assert ElemIDs(m) == [1, 2, 3, 4, 5];
    }
  }

  /** The element IDs 1..5 are dense, so the export gets past the density check. */
  lemma TetrahedronDense()
    ensures Dense(Tetrahedron())
  {
    assert ElemIDs(Tetrahedron()) == [1, 2, 3, 4, 5];
  }

  /** `GetMeshInfo` reports three entity types, the nodes among them. */
  lemma TetrahedronEntries()
    ensures NonzeroEntries(Tetrahedron().meshInfo) == 3
  {
    var info := Tetrahedron().meshInfo;
    assert (set name | name in info && info[name] > 0) == {"Entity_Node", "Entity_Triangle", "Entity_Tetra"};
  }

  /** The entity types of the table that `GetMeshInfo` does not report for this mesh. */
  lemma TetrahedronAbsentTypes()
    ensures var info := Tetrahedron().meshInfo;
      InfoCount(info, "Entity_Edge") == 0 && InfoCount(info, "Entity_Quadrangle") == 0 &&
      InfoCount(info, "Entity_Pyramid") == 0 && InfoCount(info, "Entity_Hexagonal_Prism") == 0 &&
      InfoCount(info, "Entity_Hexa") == 0
  {
    // the names of length 11 differ from "Entity_Node" at index 7
    assert "Entity_Edge"[7] != "Entity_Node"[7] && "Entity_Hexa"[7] != "Entity_Node"[7];
  }

  /** The type lines: four triangles (303) and one tetrahedron (504). */
  lemma TetrahedronTypeLines()
    ensures TypeLines(TypeTable, Tetrahedron().meshInfo) == [[303, 4], [504, 1]]
  {
    var info := Tetrahedron().meshInfo;
    TetrahedronAbsentTypes();
    assert InfoCount(info, "Entity_Triangle") == 4 && InfoCount(info, "Entity_Tetra") == 1;
    assert TypeTable[..0] == [];
    TypeLinesPrefix(TypeTable, info, 1);
    TypeLinesPrefix(TypeTable, info, 2);
    TypeLinesPrefix(TypeTable, info, 3);
    TypeLinesPrefix(TypeTable, info, 4);
    TypeLinesPrefix(TypeTable, info, 5);
    TypeLinesPrefix(TypeTable, info, 6);
    TypeLinesPrefix(TypeTable, info, 7);
    assert TypeTable[..7] == TypeTable;
  }

  /** The header the code writes: three nonzero `GetMeshInfo` entries give line 2 the value 2. */
  lemma TetrahedronHeader()
    ensures HeaderLines(Tetrahedron()) == [[4, 1, 4], [2], [303, 4], [504, 1]]
  {
    TetrahedronEntries();
    TetrahedronTypeLines();
  }

  /** The Elmer type codes of the two entity types the tetrahedron uses. */
  lemma TetrahedronCodes()
    ensures TypeCode("Entity_Triangle") == Some(303) && TypeCode("Entity_Tetra") == Some(504)
  {
    TypeTableRoundTrip(1);
    TypeTableRoundTrip(3);
  }

  /** The only volume is written as line 1, in the "empty" group, with code 504. */
  lemma TetrahedronElements(lines: seq<seq<int>>)
    requires WellFormed(Tetrahedron()) && ElementsWritten(Tetrahedron(), lines)
    ensures lines == [[1, 1, 504] + Tetrahedron().elemNodes[5]]
  {
    TetrahedronLine();
    assert lines == [lines[0]];
  }

  /** The volume: element 5, a tetrahedron, in no group. */
  lemma TetrahedronFacts()
    ensures Tetrahedron().volumeIDs == [5] && Tetrahedron().geomType[5] == "Entity_Tetra"
    ensures GroupOf(Tetrahedron(), 5) == 1
  {
  }

  /** The tetrahedron's line: ID 1, the "empty" group, code 504, its four nodes. */
  lemma TetrahedronLine()
    requires WellFormed(Tetrahedron())
    ensures VolumeTyped(Tetrahedron(), 0)
    ensures VolumeLine(Tetrahedron(), 0) == [1, 1, 504] + Tetrahedron().elemNodes[5]
  {
    TetrahedronFacts();
    TetrahedronCodes();
  }

  /** The boundary elements in enumeration order are the triangles 1..4, each with one parent, 5. */
  lemma TriangleFacts(k: nat)
    requires k < 4
    ensures NbEdgesFaces(Tetrahedron()) == 4 && VolumeNumber(Tetrahedron(), 5) == 1
    ensures BoundaryElement(Tetrahedron(), k) == k + 1 && GroupOf(Tetrahedron(), k + 1) == 1
    ensures Tetrahedron().parents[k + 1] == [5] && Tetrahedron().geomType[k + 1] == "Entity_Triangle"
  {
    var m := Tetrahedron();
    assert ElemIDs(m)[k] == m.faceIDs[k] == k + 1;
    assert k + 1 in {1, 2, 3, 4};
  }

  /** The k-th triangle's line: ID k+1, the "empty" group, the tetrahedron as parent 1, no parent 2. */
  lemma TriangleLine(k: nat)
    requires WellFormed(Tetrahedron()) && k < 4
    ensures BoundaryTyped(Tetrahedron(), k) && HasParent(Tetrahedron(), k)
    ensures BoundaryLine(Tetrahedron(), k) ==
      [k + 1, 1, 1, 0, 303] + Tetrahedron().elemNodes[BoundaryElement(Tetrahedron(), k)]
  {
    TriangleFacts(k);
    TetrahedronCodes();
  }

  /** Each triangle is written with the tetrahedron as parent 1 and no parent 2. */
  lemma TetrahedronBoundary(lines: seq<seq<int>>)
    requires WellFormed(Tetrahedron()) && BoundaryWritten(Tetrahedron(), lines)
    ensures |lines| == 4
    ensures forall k :: 0 <= k < 4 ==> lines[k] == [k + 1, 1, 1, 0, 303] + Tetrahedron().elemNodes[k + 1]
    ensures BoundaryFailure(Tetrahedron(), lines) == None
  {
    TriangleFacts(0);
    forall k | 0 <= k < 4
      ensures BoundaryTyped(Tetrahedron(), k) && HasParent(Tetrahedron(), k)
      ensures BoundaryLine(Tetrahedron(), k) == [k + 1, 1, 1, 0, 303] + Tetrahedron().elemNodes[k + 1]
    {
      TriangleFacts(k);
      TriangleLine(k);
    }
  }

  /** With no groups, the names file holds the two comments and the empty group, ID 1. */
  lemma TetrahedronNames(names: seq<NameLine>)
    requires IsNamesRegistry(names, Tetrahedron())
    ensures names == [BodiesComment, BoundariesComment, Entry("empty", 1)]
  {
  }

  /**
   * The export of the tetrahedron succeeds. Header line 2 is 2 (three nonzero
   * `GetMeshInfo` entries, less one) and the triangles get a `303 4` line.
   * Every triangle has the tetrahedron as its only parent, and everything is
   * in the "empty" group 1.
   */
  method ExportTetrahedron() returns (out: Outcome)
    ensures out.failure == None
    ensures out.files.header == [[4, 1, 4], [2], [303, 4], [504, 1]]
    ensures out.files.names == [BodiesComment, BoundariesComment, Entry("empty", 1)]
    ensures out.files.elements == [[1, 1, 504] + Tetrahedron().elemNodes[5]]
    ensures |out.files.boundary| == 4
    ensures forall k :: 0 <= k < 4 ==>
      out.files.boundary[k] == [k + 1, 1, 1, 0, 303] + Tetrahedron().elemNodes[k + 1]
  {
    var m := Tetrahedron();
    TetrahedronWellFormed();
    TetrahedronDense();
    TetrahedronHeader();
    out := ExportToElmer(m);
    TetrahedronNames(out.files.names);
    TetrahedronElements(out.files.elements);
    TetrahedronBoundary(out.files.boundary);
    assert |m.volumeIDs| == 1 && NbEdgesFaces(m) == 4;
  }
}
