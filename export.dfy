/**
 * `exportToElmer`: the header, the density check, the renumbering, the group
 * passes and the two record loops, in the order the exporter runs them, and
 * what the files hold when it stops.
 */
module Export {
  import opened MeshData
  import opened ElementTypes
  import opened Renumbering
  import opened GroupResolution
  import opened Header
  import opened Records

  /** The density check passes: the largest element ID is the element count. */
  predicate Dense(m: Mesh)
  {
    |ElemIDs(m)| > 0 && Max(ElemIDs(m)) == |ElemIDs(m)|
  }

  /** Under the density check, every element ID indexes `invElemIDs`. */
  lemma DenseIdsInRange(m: Mesh)
    requires WellFormed(m) && Dense(m)
    ensures forall k :: 0 <= k < |ElemIDs(m)| ==> 1 <= ElemIDs(m)[k] <= |ElemIDs(m)|
  {
    ElementsKnown(m);
  }

  /**
   * The export, file by file. mesh.header is written before anything can
   * fail. The density check (and `max` of an empty list) fails before
   * mesh.names, mesh.elements or mesh.boundary receive a line. Past it,
   * mesh.names is the full registry, mesh.elements holds the volume lines up
   * to the first volume of unknown type, and mesh.boundary is reached only
   * when mesh.elements is complete.
   */
  method ExportToElmer(m: Mesh) returns (out: Outcome)
    requires WellFormed(m)
    ensures out.files.header == HeaderLines(m)
    ensures |ElemIDs(m)| == 0 ==>
      out.failure == Some(NoElements) && out.files.names == [] &&
      out.files.elements == [] && out.files.boundary == []
    ensures |ElemIDs(m)| > 0 && !Dense(m) ==>
      out.failure == Some(NumberingMismatch(|ElemIDs(m)|, Max(ElemIDs(m)))) &&
      out.files.names == [] && out.files.elements == [] && out.files.boundary == []
    ensures Dense(m) ==>
      IsNamesRegistry(out.files.names, m) && ElementsWritten(m, out.files.elements)
    ensures Dense(m) && |out.files.elements| < |m.volumeIDs| ==>
      out.files.boundary == [] && out.failure == VolumeFailure(m, out.files.elements)
    ensures Dense(m) && |out.files.elements| == |m.volumeIDs| ==>
      BoundaryWritten(m, out.files.boundary) && out.failure == BoundaryFailure(m, out.files.boundary)
  {
    var typeLines := HeaderTypeLines(m.meshInfo);
    var header := [[m.nbNodes, |m.volumeIDs|, |m.edgeIDs| + |m.faceIDs|],
                   [NonzeroEntries(m.meshInfo) - 1]] + typeLines;
    var elemIDs := m.edgeIDs + m.faceIDs + m.volumeIDs;
    if |elemIDs| == 0 {
      return Outcome(ElmerFiles(header, [], [], []), Some(NoElements));
    }
    if |elemIDs| != Max(elemIDs) {
      return Outcome(ElmerFiles(header, [], [], []), Some(NumberingMismatch(|elemIDs|, Max(elemIDs))));
    }
    var names, elements, boundary, failure := ExportDense(m);
    out := Outcome(ElmerFiles(header, names, elements, boundary), failure);
  }

  /** The export past the density check: the arrays, the group passes and the record loops. */
  method ExportDense(m: Mesh)
    returns (names: seq<NameLine>, elements: seq<seq<int>>, boundary: seq<seq<int>>, failure: Option<ExportError>)
    requires WellFormed(m) && Dense(m)
    ensures IsNamesRegistry(names, m) && ElementsWritten(m, elements)
    ensures |elements| < |m.volumeIDs| ==> boundary == [] && failure == VolumeFailure(m, elements)
    ensures |elements| == |m.volumeIDs| ==>
      BoundaryWritten(m, boundary) && failure == BoundaryFailure(m, boundary)
  {
    var elemIDs := m.edgeIDs + m.faceIDs + m.volumeIDs;
    var invElemIDs := new int[|elemIDs|](_ => m.nbGroups + 1);
    var elemGrp := new int[|elemIDs|](_ => m.nbGroups + 1);
    DenseIdsInRange(m);
    FillInverse(invElemIDs, elemIDs);
    var inv := invElemIDs[..];
    assert IsInverse(ElemIDs(m), inv);
    names := ResolveGroups(elemGrp, inv, m);
    var grp := elemGrp[..];
    var volumeFailure;
    elements, volumeFailure := VolumeRecords(m, inv, grp);
    if volumeFailure.Some? {
      return names, elements, [], volumeFailure;
    }
    boundary, failure := BoundaryRecords(m, inv, grp);
  }

  /**
   * A complete export: every volume has a line, numbered 1..NbVolumes in
   * enumeration order, and every edge and face has a line, numbered
   * 1..NbEdges+NbFaces in enumeration order.
   */
  lemma CompleteExport(m: Mesh, out: Outcome, k: nat)
    requires WellFormed(m)
    requires ElementsWritten(m, out.files.elements) && |out.files.elements| == |m.volumeIDs|
    requires BoundaryWritten(m, out.files.boundary) && out.failure == BoundaryFailure(m, out.files.boundary)
    requires out.failure == None
    ensures |out.files.boundary| == NbEdgesFaces(m)
    ensures k < |m.volumeIDs| ==>
      out.files.elements[k][0] == k + 1 && out.files.elements[k][1] == GroupOf(m, m.volumeIDs[k])
    ensures k < NbEdgesFaces(m) ==>
      out.files.boundary[k][0] == k + 1 && out.files.boundary[k][1] == GroupOf(m, ElemIDs(m)[k])
  {
    if k < |m.volumeIDs| {
      assert out.files.elements[k][0] == k + 1 && out.files.elements[k][1] == GroupOf(m, m.volumeIDs[k]) by {
        assert out.files.elements[k] == VolumeLine(m, k);
      }
    }
    if k < NbEdgesFaces(m) {
      assert out.files.boundary[k][0] == k + 1 && out.files.boundary[k][1] == GroupOf(m, ElemIDs(m)[k]) by {
        assert out.files.boundary[k] == BoundaryLine(m, k);
      }
    }
  }
}
