/**
 * The data the exporter reads from a Salome mesh, and the data it produces.
 *
 * The Salome mesh object is a foreign collaborator; everything `exportToElmer`
 * asks of it is taken here as plain input data: the edge, face and volume ID
 * enumerations, the volume and face groups, the group count, the per-entity
 * counts of `GetMeshInfo`, each element's entity-type name and node list, and
 * the volumes found at a boundary element's barycentre (the result of
 * `BaryCenter` followed by `FindElementsByPoint`).
 */
module MeshData {

  datatype Option<+T> = None | Some(value: T)

  /** A named Salome group and the element IDs it lists, in its own order. */
  datatype Group = Group(name: string, ids: seq<int>)

  datatype Mesh = Mesh(
    nbNodes: nat,
    edgeIDs: seq<int>,
    faceIDs: seq<int>,
    volumeIDs: seq<int>,
    volumeGroups: seq<Group>,
    faceGroups: seq<Group>,
    nbGroups: nat,                      // NbGroups(): every group of the mesh, of any kind
    meshInfo: map<string, nat>,         // GetMeshInfo(), keyed by entity-type name
    geomType: map<int, string>,         // GetElementGeomType, as the entity-type name
    elemNodes: map<int, seq<int>>,      // GetElemNodes
    parents: map<int, seq<int>>)        // volumes containing the barycentre of a boundary element

  /** The fatal conditions of an export, each raised by the Python runtime. */
  datatype ExportError =
    | NoElements                              // max() of an empty element list
    | NumberingMismatch(count: int, maxId: int)
    | UnknownType(element: int, name: string) // int(None) for a name missing from the type table
    | NoParentVolume(element: int)            // parents[0] on an empty query result

  /** One line of mesh.names. */
  datatype NameLine =
    | BodiesComment          // "! ----- names for bodies -----"
    | BoundariesComment      // "! ----- names for boundaries -----"
    | Entry(name: string, id: int)   // "$ name = id"

  /** The four modelled output files, each a sequence of lines; a numeric line is its integers in order. */
  datatype ElmerFiles = ElmerFiles(
    header: seq<seq<int>>,
    names: seq<NameLine>,
    elements: seq<seq<int>>,
    boundary: seq<seq<int>>)

  /** What the files hold when the export stops, and why it stopped early, if it did. */
  datatype Outcome = Outcome(files: ElmerFiles, failure: Option<ExportError>)

  /** `edgeIDs + faceIDs + volumeIDs`: the combined order that defines the renumbering. */
  function ElemIDs(m: Mesh): (ids: seq<int>)
    ensures |ids| == |m.edgeIDs| + |m.faceIDs| + |m.volumeIDs|
  {
    m.edgeIDs + m.faceIDs + m.volumeIDs
  }

  /** `NbEdges() + NbFaces()`: how many elements of the combined order are boundary elements. */
  function NbEdgesFaces(m: Mesh): nat
  {
    |m.edgeIDs| + |m.faceIDs|
  }

  predicate Distinct(s: seq<int>)
  {
    forall i, j :: 0 <= i < j < |s| ==> s[i] != s[j]
  }

  /** Every element named by a group is an element of the mesh. */
  predicate MembersAreElements(groups: seq<Group>, ids: seq<int>)
  {
    forall i, e :: 0 <= i < |groups| && e in groups[i].ids ==> e in ids
  }

  /** An element ID that the mesh knows: positive, with a geometry type and a node list. */
  predicate IsElement(m: Mesh, e: int)
  {
    1 <= e && e in m.geomType && e in m.elemNodes
  }

  /** A boundary element whose point location was answered with volume IDs. */
  predicate HasLocation(m: Mesh, e: int)
  {
    e in m.parents && forall v :: v in m.parents[e] ==> v in m.volumeIDs
  }

  /**
   * What the Salome mesh guarantees about the data it hands out: element IDs
   * are positive and unique over edges, faces and volumes; every element has a
   * geometry type and a node list; every boundary element has a point-location
   * result, made of volume IDs; groups list elements of the mesh.
   */
  predicate WellFormed(m: Mesh)
  {
    (forall e :: e in m.edgeIDs ==> IsElement(m, e) && HasLocation(m, e)) &&
    (forall e :: e in m.faceIDs ==> IsElement(m, e) && HasLocation(m, e)) &&
    (forall k :: 0 <= k < |m.volumeIDs| ==> IsElement(m, m.volumeIDs[k])) &&
    Distinct(ElemIDs(m)) &&
    MembersAreElements(m.volumeGroups, ElemIDs(m)) &&
    MembersAreElements(m.faceGroups, ElemIDs(m))
  }

  /** Every entry of the combined order is a known element. */
  lemma ElementsKnown(m: Mesh)
    requires WellFormed(m)
    ensures forall k :: 0 <= k < |ElemIDs(m)| ==> IsElement(m, ElemIDs(m)[k])
  {
  }
}
