/**
 * mesh.elements and mesh.boundary: one line per volume, and one per edge or
 * face, built from the renumbering, the group table and the type table.
 */
module Records {
  import opened MeshData
  import opened ElementTypes
  import opened Renumbering
  import opened GroupResolution

  /** The first position of `v` in `s`. */
  function IndexOf(s: seq<int>, v: int): (r: nat)
    requires v in s
    ensures r < |s| && s[r] == v
    ensures forall j :: 0 <= j < r ==> s[j] != v
  {
    if s[0] == v then 0 else 1 + IndexOf(s[1..], v)
  }

  /**
   * The Elmer number of volume `v`: its 1-based place in the volume
   * enumeration, which is also the line of mesh.elements that describes it.
   */
  function VolumeNumber(m: Mesh, v: int): (r: int)
    requires v in m.volumeIDs
    ensures 1 <= r <= |m.volumeIDs| && m.volumeIDs[r - 1] == v
  {
    IndexOf(m.volumeIDs, v) + 1
  }

  /** Whether the k-th volume's entity type is in the type table. */
  predicate VolumeTyped(m: Mesh, k: nat)
    requires WellFormed(m) && k < |m.volumeIDs|
  {
    TypeCode(m.geomType[m.volumeIDs[k]]).Some?
  }

  /** The line for the k-th volume: `Elmer ID, body ID, type code, nodes...`. */
  function VolumeLine(m: Mesh, k: nat): seq<int>
    requires WellFormed(m) && k < |m.volumeIDs| && VolumeTyped(m, k)
  {
    var e := m.volumeIDs[k];
    [k + 1, GroupOf(m, e), TypeCode(m.geomType[e]).value] + m.elemNodes[e]
  }

  /** The element the k-th boundary line is about: `elemIDs[:NbEdgesFaces][k]`. */
  function BoundaryElement(m: Mesh, k: nat): (e: int)
    requires k < NbEdgesFaces(m)
    ensures e in m.edgeIDs || e in m.faceIDs
  {
    var ids := ElemIDs(m);
    assert k < |m.edgeIDs| ==> ids[k] == m.edgeIDs[k];
    assert k >= |m.edgeIDs| ==> ids[k] == m.faceIDs[k - |m.edgeIDs|];
    ids[k]
  }

  predicate BoundaryTyped(m: Mesh, k: nat)
    requires WellFormed(m) && k < NbEdgesFaces(m)
  {
    TypeCode(m.geomType[BoundaryElement(m, k)]).Some?
  }

  /** Whether the point location for the k-th boundary element found a volume. */
  predicate HasParent(m: Mesh, k: nat)
    requires WellFormed(m) && k < NbEdgesFaces(m)
  {
    |m.parents[BoundaryElement(m, k)]| > 0
  }

  /**
   * The line for the k-th boundary element:
   * `Elmer ID, boundary ID, parent 1, parent 2, type code, nodes...`. The
   * second parent is written only when exactly two volumes were found;
   * otherwise it is 0 and only the first volume found is used.
   */
  function BoundaryLine(m: Mesh, k: nat): seq<int>
    requires WellFormed(m) && k < NbEdgesFaces(m) && BoundaryTyped(m, k) && HasParent(m, k)
  {
    var e := BoundaryElement(m, k);
    var ps := m.parents[e];
    [k + 1, GroupOf(m, e),
     VolumeNumber(m, ps[0]), if |ps| == 2 then VolumeNumber(m, ps[1]) else 0,
     TypeCode(m.geomType[e]).value] + m.elemNodes[e]
  }

  /**
   * mesh.elements as far as it was written: the lines of the leading volumes,
   * in enumeration order, stopping only at a volume of unknown type.
   */
  predicate ElementsWritten(m: Mesh, lines: seq<seq<int>>)
    requires WellFormed(m)
  {
    |lines| <= |m.volumeIDs| &&
    (forall k :: 0 <= k < |lines| ==> VolumeTyped(m, k) && lines[k] == VolumeLine(m, k)) &&
    (|lines| < |m.volumeIDs| ==> !VolumeTyped(m, |lines|))
  }

  /** The error met at the k-th volume: its type is not in the table. */
  function VolumeStop(m: Mesh, k: nat): ExportError
    requires WellFormed(m) && k < |m.volumeIDs|
  {
    var e := m.volumeIDs[k];
    UnknownType(e, m.geomType[e])
  }

  /** Why mesh.elements stopped where it did. */
  function VolumeFailure(m: Mesh, lines: seq<seq<int>>): Option<ExportError>
    requires WellFormed(m) && |lines| <= |m.volumeIDs|
  {
    if |lines| == |m.volumeIDs| then None else Some(VolumeStop(m, |lines|))
  }

  /**
   * mesh.boundary as far as it was written: the lines of the leading boundary
   * elements, stopping at one of unknown type or with no volume found.
   */
  predicate BoundaryWritten(m: Mesh, lines: seq<seq<int>>)
    requires WellFormed(m)
  {
    |lines| <= NbEdgesFaces(m) &&
    (forall k :: 0 <= k < |lines| ==>
       BoundaryTyped(m, k) && HasParent(m, k) && lines[k] == BoundaryLine(m, k)) &&
    (|lines| < NbEdgesFaces(m) ==> !(BoundaryTyped(m, |lines|) && HasParent(m, |lines|)))
  }

  /** The error met at the k-th boundary element: the type lookup comes before the parent lookup. */
  function BoundaryStop(m: Mesh, k: nat): ExportError
    requires WellFormed(m) && k < NbEdgesFaces(m)
  {
    var e := BoundaryElement(m, k);
    if TypeCode(m.geomType[e]).None? then UnknownType(e, m.geomType[e]) else NoParentVolume(e)
  }

  /** Why mesh.boundary stopped where it did. */
  function BoundaryFailure(m: Mesh, lines: seq<seq<int>>): Option<ExportError>
    requires WellFormed(m) && |lines| <= NbEdgesFaces(m)
  {
    if |lines| == NbEdgesFaces(m) then None else Some(BoundaryStop(m, |lines|))
  }

  /** Where the k-th volume sits in the combined order, and so in `invElemIDs`. */
  lemma VolumePosition(m: Mesh, inv: seq<int>, k: nat)
    requires IsInverse(ElemIDs(m), inv) && k < |m.volumeIDs|
    ensures var e := m.volumeIDs[k];
      1 <= e <= |inv| && inv[e - 1] == NbEdgesFaces(m) + k + 1
  {
    assert ElemIDs(m)[NbEdgesFaces(m) + k] == m.volumeIDs[k];
  }

  /** A volume's renumbered position, less `NbEdgesFaces`, is its Elmer number. */
  lemma RebasedVolume(m: Mesh, inv: seq<int>, v: int)
    requires WellFormed(m) && IsInverse(ElemIDs(m), inv) && v in m.volumeIDs
    ensures 1 <= v <= |inv| && inv[v - 1] - NbEdgesFaces(m) == VolumeNumber(m, v)
  {
    VolumePosition(m, inv, VolumeNumber(m, v) - 1);
  }

  /**
   * One pass of the mesh.elements loop: the line of the k-th volume, or the
   * error that stops the loop there.
   */
  method VolumeRecord(m: Mesh, inv: seq<int>, elemGrp: seq<int>, k: nat)
    returns (line: seq<int>, stop: Option<ExportError>)
    requires WellFormed(m) && IsInverse(ElemIDs(m), inv) && elemGrp == GroupTable(m)
    requires k < |m.volumeIDs|
    ensures stop.None? <==> VolumeTyped(m, k)
    ensures stop.None? ==> line == VolumeLine(m, k)
    ensures stop.Some? ==> stop.value == VolumeStop(m, k)
  {
    var nbEdgesFaces := |m.edgeIDs| + |m.faceIDs|;
    var el := m.volumeIDs[k];
    var elemTypeNbr := TypeCode(m.geomType[el]);
    if elemTypeNbr.None? {
      return [], Some(UnknownType(el, m.geomType[el]));
    }
    VolumePosition(m, inv, k);
    assert ElemIDs(m)[inv[el - 1] - 1] == el;
    line := [inv[el - 1] - nbEdgesFaces, elemGrp[inv[el - 1] - 1], elemTypeNbr.value] + m.elemNodes[el];
    stop := None;
  }

  /** The mesh.elements loop. */
  method VolumeRecords(m: Mesh, inv: seq<int>, elemGrp: seq<int>)
    returns (lines: seq<seq<int>>, failure: Option<ExportError>)
    requires WellFormed(m) && IsInverse(ElemIDs(m), inv) && elemGrp == GroupTable(m)
    ensures ElementsWritten(m, lines)
    ensures failure == VolumeFailure(m, lines)
  {
    lines := [];
    for k := 0 to |m.volumeIDs|
      invariant |lines| == k
      invariant forall j :: 0 <= j < k ==> VolumeTyped(m, j) && lines[j] == VolumeLine(m, j)
    {
      var line, stop := VolumeRecord(m, inv, elemGrp, k);
      if stop.Some? {
        failure := stop;
        return;
      }
      lines := lines + [line];
    }
    failure := None;
  }

  /** The k-th boundary element's renumbered position is k+1, and its group entry is its group. */
  lemma BoundaryPosition(m: Mesh, inv: seq<int>, k: nat)
    requires IsInverse(ElemIDs(m), inv) && k < NbEdgesFaces(m)
    ensures var e := BoundaryElement(m, k);
      1 <= e <= |inv| && inv[e - 1] == k + 1 && GroupTable(m)[k] == GroupOf(m, e)
  {
  }

  /**
   * The boundary line as the loop assembles it from `invElemIDs` and
   * `elemGrp` is the k-th boundary line: the renumbered position of the k-th
   * boundary element is k+1, and a parent's position less `NbEdgesFaces` is
   * its Elmer number.
   */
  lemma BoundaryLineFromTables(m: Mesh, inv: seq<int>, elemGrp: seq<int>, k: nat)
    requires WellFormed(m) && IsInverse(ElemIDs(m), inv)
    requires k < NbEdgesFaces(m) && BoundaryTyped(m, k) && HasParent(m, k)
    requires |elemGrp| == |inv| && elemGrp[k] == GroupOf(m, BoundaryElement(m, k))
    ensures var e := BoundaryElement(m, k);
      var ps := m.parents[e];
      1 <= e <= |inv| && inv[e - 1] == k + 1 &&
      1 <= ps[0] <= |inv| && (|ps| == 2 ==> 1 <= ps[1] <= |inv|) &&
      BoundaryLine(m, k) ==
        [inv[e - 1], elemGrp[inv[e - 1] - 1],
         inv[ps[0] - 1] - NbEdgesFaces(m),
         if |ps| == 2 then inv[ps[1] - 1] - NbEdgesFaces(m) else 0,
         TypeCode(m.geomType[e]).value] + m.elemNodes[e]
  {
    var e := BoundaryElement(m, k);
    var ps := m.parents[e];
    BoundaryPosition(m, inv, k);
    RebasedVolume(m, inv, ps[0]);
    if |ps| == 2 {
      RebasedVolume(m, inv, ps[1]);
    }
  }

  /**
   * One pass of the mesh.boundary loop: the line of the k-th boundary element,
   * or the error that stops the loop there.
   */
  method BoundaryRecord(m: Mesh, inv: seq<int>, elemGrp: seq<int>, k: nat)
    returns (line: seq<int>, stop: Option<ExportError>)
    requires WellFormed(m) && IsInverse(ElemIDs(m), inv)
    requires k < NbEdgesFaces(m)
    requires |elemGrp| == |inv| && elemGrp[k] == GroupOf(m, BoundaryElement(m, k))
    ensures stop.None? <==> BoundaryTyped(m, k) && HasParent(m, k)
    ensures stop.None? ==> line == BoundaryLine(m, k)
    ensures stop.Some? ==> stop.value == BoundaryStop(m, k)
  {
    var el := ElemIDs(m)[k];
    assert el == BoundaryElement(m, k);
    var nbEdgesFaces := |m.edgeIDs| + |m.faceIDs|;
    var elemTypeNbr := TypeCode(m.geomType[el]);
    if elemTypeNbr.None? {
      return [], Some(UnknownType(el, m.geomType[el]));
    }
    var parents := m.parents[el];
    if |parents| == 0 {
      return [], Some(NoParentVolume(el));
    }
    BoundaryLineFromTables(m, inv, elemGrp, k);
    // the two `f.write` branches differ only in the second parent column
    var second := 0;
    if |parents| == 2 {
      second := inv[parents[1] - 1] - nbEdgesFaces;
    }
    line := [inv[el - 1], elemGrp[inv[el - 1] - 1], inv[parents[0] - 1] - nbEdgesFaces, second, elemTypeNbr.value];
    line := line + m.elemNodes[el];
    stop := None;
  }

  /** The mesh.boundary loop, over `elemIDs[:NbEdgesFaces]`. */
  method BoundaryRecords(m: Mesh, inv: seq<int>, elemGrp: seq<int>)
    returns (lines: seq<seq<int>>, failure: Option<ExportError>)
    requires WellFormed(m) && IsInverse(ElemIDs(m), inv) && elemGrp == GroupTable(m)
    ensures BoundaryWritten(m, lines)
    ensures failure == BoundaryFailure(m, lines)
  {
    lines := [];
    for k := 0 to |m.edgeIDs| + |m.faceIDs|
      invariant |lines| == k
      invariant forall j :: 0 <= j < k ==>
        BoundaryTyped(m, j) && HasParent(m, j) && lines[j] == BoundaryLine(m, j)
    {
      BoundaryPosition(m, inv, k);
      var line, stop := BoundaryRecord(m, inv, elemGrp, k);
      if stop.Some? {
        failure := stop;
        return;
      }
      lines := lines + [line];
    }
    failure := None;
  }

  /**
   * The parent columns of mesh.boundary: the first is the Elmer number of the
   * first volume found, so it lies in 1..NbVolumes; the second is 0 exactly
   * when the query did not return two volumes, and otherwise the Elmer number
   * of the second volume found.
   */
  lemma ParentColumns(m: Mesh, lines: seq<seq<int>>, k: nat)
    requires WellFormed(m) && BoundaryWritten(m, lines) && k < |lines|
    ensures var ps := m.parents[BoundaryElement(m, k)];
      1 <= lines[k][2] <= |m.volumeIDs| && m.volumeIDs[lines[k][2] - 1] == ps[0] &&
      (lines[k][3] == 0 <==> |ps| != 2) &&
      (|ps| == 2 ==> 1 <= lines[k][3] <= |m.volumeIDs| && m.volumeIDs[lines[k][3] - 1] == ps[1])
  {
    assert lines[k] == BoundaryLine(m, k);
  }

  /**
   * Cross-file consistency: when mesh.elements is complete, the line a parent
   * column points to is the line of that very volume.
   */
  lemma ParentLinesToVolume(m: Mesh, elements: seq<seq<int>>, boundary: seq<seq<int>>, k: nat)
    requires WellFormed(m) && ElementsWritten(m, elements) && |elements| == |m.volumeIDs|
    requires BoundaryWritten(m, boundary) && k < |boundary|
    ensures var p := boundary[k][2];
      1 <= p <= |elements| && elements[p - 1][0] == p &&
      m.volumeIDs[p - 1] == m.parents[BoundaryElement(m, k)][0]
  {
    ParentColumns(m, boundary, k);
  }
}
