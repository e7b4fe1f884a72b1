# salomeToElmer: the export step, modelled in Dafny

`exportToElmer` converts a Salome mesh into Elmer's native mesh: five text
files (`mesh.header`, `mesh.nodes`, `mesh.names`, `mesh.elements`,
`mesh.boundary`). This project models the part of that function that
renumbers and cross-references elements, and proves what the files contain.

- **Renumbering.** The element IDs are concatenated in the order
  `edgeIDs + faceIDs + volumeIDs`. The index array `invElemIDs` is filled in
  place so that it maps each Salome ID to its 1-based position in that order.
  The density check runs first: the element count must equal the largest
  element ID.
- **Group resolution.** `elemGrp` starts at `NbGroups()+1`, the "empty"
  group. Volume groups are numbered from 1 and assign their members
  unconditionally, so the last group to list an element wins. Face groups are
  numbered on from there and assign a member only when they lower its entry,
  so the lowest-numbered face group wins. The names registry is written
  alongside.
- **Header.** The counts line comes first. Then the number of nonzero
  `GetMeshInfo` entries minus one. Then one `code count` line per entry of
  the fixed type table (202 … 808) whose count is nonzero, in ascending code
  order.
- **Records.** The k-th volume's line carries Elmer ID k+1: its renumbered
  position minus `NbEdges+NbFaces`. The k-th edge or face's line carries
  Elmer ID k+1 and one or two parent volumes, each given by its Elmer volume
  number, with 0 standing for "no second parent".

The Salome mesh object is replaced by plain input data, `MeshData.Mesh`.
Point location (`BaryCenter` followed by `FindElementsByPoint`) becomes the
`parents` map: for each boundary element, the volume IDs found, in query
order. `MeshData.WellFormed` states what the Salome mesh guarantees about
that data. Element IDs are positive and unique. Every element has a
geometry type and a node list. Every located volume is a volume of the mesh.
Groups list elements of the mesh.

The model returns an `Outcome`: the lines each file holds when the export
stops, and the error that stopped it, if any. Files are modelled as
sequences of lines. A numeric line is its integers in order, and a
`mesh.names` line is a `NameLine`. The four failures are the Python
runtime errors the code can raise:
- `NoElements`: `max` of an empty list.
- `NumberingMismatch`: the explicit density-check exception.
- `UnknownType`: `int(None)` for an entity-type name missing from the table.
- `NoParentVolume`: `parents[0]` on an empty point-location result.

Modules: `MeshData` (inputs and outputs), `ElementTypes` (the type table and
its inversion), `Renumbering`, `GroupResolution`, `Header`, `Records`, and
`Export` (the whole function in source order), and `Scenario` (the export
of one tetrahedron, worked out in full).

### Behaviour of the code worth knowing

- A point-location result with more than two volumes is not an error
  (salomeToElmer.py:169-177). Only the first volume is written, and parent 2
  is 0. An empty result fails at `parents[0]`.
- Header line 2 is the number of nonzero `GetMeshInfo` entries minus one
  (salomeToElmer.py:83-84). It equals the number of type lines below it when
  the nodes have a nonzero entry and every other nonzero entry names a type
  of the table (`Header.HeaderLine2CountsTypes`). For the single tetrahedron
  of `Scenario`, the header is `4 1 4` / `2` / `303 4` / `504 1`.
- A failure does not prevent output. `mesh.header` is complete before the
  density check (salomeToElmer.py:80-96, 118). After the check, each file
  holds the lines written before the failing element.
- Only `SMESH.FACE` groups are boundary groups (salomeToElmer.py:136). The
  "empty" ID is `NbGroups()+1` (salomeToElmer.py:143), where `NbGroups()`
  counts every group of the mesh.
- A volume listed by no volume group keeps the "empty" ID
  (salomeToElmer.py:108-109). An element listed by both a volume group and a
  face group keeps its volume-group ID, because that ID is the smaller
  (salomeToElmer.py:139-140).

## Model

| member | source | states |
|---|---|---|
| `ElementTypes.CodeOf` | salomeToElmer.py:107 | Looking a name up in the inverted table finds nothing exactly when no entry carries the name; otherwise it returns a code listed with that name. |
| `ElementTypes.InversionFaithful` | salomeToElmer.py:86-89 | For a table with distinct names and codes, every entry is found again from its name (`invElemType`) and from its code (`elemTypeNames`). |
| `ElementTypes.TypeCode` | salomeToElmer.py:151 | The type code of an element is defined exactly when its entity name is in the table; when defined, the forward table maps that code back to the name. |
| `ElementTypes.TypeTableRoundTrip` | salomeToElmer.py:86-89 | The two lookups agree on every entry of the fixed seven-entry table. |
| `Renumbering.Max` | salomeToElmer.py:118 | `max(elemIDs)` is an element of the list that is at least every element. |
| `Renumbering.LastPos` | salomeToElmer.py:121-122 | Returns the last position of a value, or -1 exactly when the value is absent; no later position holds it. |
| `Renumbering.FillInverse` | salomeToElmer.py:121-122 | After the loop, each entry j either holds one plus the last position of ID j+1, or, if j+1 is not listed, its initial value. For distinct IDs, `invElemIDs[elemIDs[k]-1] == k+1` for every k. |
| `Renumbering.EveryIdListed` | salomeToElmer.py:118-119 | N distinct IDs in 1..N list every one of 1..N. This is the pigeonhole step behind the density check. |
| `Renumbering.InverseIsBijection` | salomeToElmer.py:115-122 | For distinct IDs passing the density check, `invElemIDs` is the inverse permutation. It brings each listed ID to its position, lands in 1..N, and `elemIDs` undoes it on the other side. |
| `GroupResolution.BodyOf` | salomeToElmer.py:128-132 | An element listed by no volume group keeps its initial entry. Otherwise it gets the 1-based number of the last volume group that lists it. |
| `GroupResolution.BoundaryOf` | salomeToElmer.py:136-141 | After the face-group pass, the entry is the minimum of its prior value and the IDs of the face groups that list the element. |
| `GroupResolution.LastBodyWins` | salomeToElmer.py:128-131 | A member of several volume groups ends with the ID of the last one to list it, whatever face groups list it. |
| `GroupResolution.LowestBoundaryWins` | salomeToElmer.py:136-140 | An element in no volume group ends with the ID of the first face group that lists it. |
| `GroupResolution.UngroupedIsEmpty` | salomeToElmer.py:108-109 | An element in no group keeps `NbGroups()+1`. |
| `GroupResolution.GroupInRange` | salomeToElmer.py:126-143 | Every entry lies in 1..NbGroups()+1. A member of a face group and of no volume group gets a face-group ID. |
| `GroupResolution.AssignBodies` | salomeToElmer.py:126-132 | The volume pass leaves every entry as `BodyOf` its element. It writes one registry entry `name = i+1` per volume group, in order. |
| `GroupResolution.AssignBoundaries` | salomeToElmer.py:134-141 | The face pass leaves every entry as `BoundaryOf` its element and prior value. It writes one registry entry per face group, numbered from the first face-group ID. |
| `GroupResolution.BodyOfStep` | salomeToElmer.py:128-132 | One more volume group sets the entry of each of its members to its ID and leaves every other entry as it was. |
| `GroupResolution.BoundaryOfStep` | salomeToElmer.py:136-141 | One more face group replaces a member's entry by its ID only when that ID is smaller, and leaves every other entry as it was. |
| `GroupResolution.RegistryLayout` | salomeToElmer.py:125-143 | The bodies comment, the volume entries, the boundaries comment, the face entries and the "empty" entry, written in that order, form the names registry. |
| `GroupResolution.ResolveGroups` | salomeToElmer.py:124-143 | Starting from all `NbGroups()+1`, `elemGrp` ends as the group table. The registry is the bodies comment, the volume entries, the boundaries comment, the face entries, then `empty = NbGroups()+1`. |
| `Header.NonzeroEntries` | salomeToElmer.py:83-84 | The number of `GetMeshInfo` entries with a nonzero count is at most the number of entries, and it is positive exactly when some entry is nonzero. |
| `Header.HeaderLines` | salomeToElmer.py:80-93 | The header has the counts line `NbNodes NbVolumes NbEdges+NbFaces`, then a value that, plus one, is at most the number of `GetMeshInfo` entries, then at most one `code count` line with a positive count per table type. |
| `Header.TypeLinesPerName` | salomeToElmer.py:91-93 | Over a table with distinct names, there are exactly as many type lines as table names with a nonzero count. |
| `Header.NodeNotInTable` | salomeToElmer.py:86-89 | `Entity_Node` is not one of the table's entity names, so the nodes' entry never gets a type line. |
| `Header.HeaderLine2CountsTypes` | salomeToElmer.py:83-93 | When the nodes have a nonzero entry and every other nonzero entry names a table type, header line 2 equals the number of type lines. |
| `Header.TypeLines` | salomeToElmer.py:91-93 | There is at most one type line per table entry, and each type line holds a code and a positive count. |
| `Header.HeaderTypeLines` | salomeToElmer.py:91-93 | The header loop writes exactly the type lines of the sorted table. |
| `Header.TypeLineSource` | salomeToElmer.py:92-93 | Every type line is `code count` for a table entry whose `GetMeshInfo` count is nonzero. |
| `Header.TypeLineWritten` | salomeToElmer.py:92-93 | Every table entry with a nonzero count has its type line. |
| `Header.TypeLinesAscending` | salomeToElmer.py:91 | Over a table sorted by code, the type lines come out in strictly ascending code order. |
| `Header.HeaderTypeLinesSpec` | salomeToElmer.py:86-93 | For the fixed table, the codes ascend, and a table type has a line if and only if its count is nonzero. |
| `Header.CountsColumnIsInfoSum` | salomeToElmer.py:91-93 | The counts column of the type lines adds up to the table types' `GetMeshInfo` counts. |
| `Header.HeaderCountsEveryElement` | salomeToElmer.py:80-93 | When `GetMeshInfo` agrees with the elements' types and every type is in the table, the counts column sums to NbVolumes + NbEdges + NbFaces. |
| `Records.VolumeNumber` | salomeToElmer.py:152 | A volume's Elmer number lies in 1..NbVolumes, and it is the line of `mesh.elements` that describes that volume. |
| `Records.VolumePosition` | salomeToElmer.py:115-122 | The k-th volume's renumbered position is `NbEdgesFaces + k + 1`. |
| `Records.RebasedVolume` | salomeToElmer.py:172-173 | A volume's renumbered position minus `NbEdgesFaces` is its Elmer number. |
| `Records.VolumeRecord` | salomeToElmer.py:149-156 | One pass of the volume loop stops exactly when the k-th volume's type is not in the table, reporting that volume and type name. Otherwise it yields the k-th volume line. |
| `Records.VolumeRecords` | salomeToElmer.py:148-156 | `mesh.elements` holds, in enumeration order, line k = `k+1, group, type code, nodes` for each leading volume of known type. It stops, with `UnknownType`, exactly at the first volume whose type is not in the table. |
| `Records.BoundaryLineFromTables` | salomeToElmer.py:162-177 | The line assembled from `invElemIDs` and `elemGrp` equals the k-th boundary line. Its ID is k+1, and each parent is given by its Elmer volume number. |
| `Records.BoundaryPosition` | salomeToElmer.py:162-171 | The k-th boundary element's renumbered position is k+1, and its `elemGrp` entry is its group. |
| `Records.BoundaryRecord` | salomeToElmer.py:162-181 | One pass of the boundary loop stops exactly when the k-th element's type is unknown or no volume was found. The type check comes first. Otherwise it yields the k-th boundary line. |
| `Records.BoundaryRecords` | salomeToElmer.py:161-181 | `mesh.boundary` holds, for exactly the leading elements of `elemIDs[:NbEdgesFaces]`, line k with ID k+1. It stops at the first element of unknown type (`UnknownType`, checked first) or with no volume found (`NoParentVolume`). |
| `Records.ParentColumns` | salomeToElmer.py:167-177 | Parent 1 lies in 1..NbVolumes and names the first volume found. Parent 2 is 0 if and only if the query did not return exactly two volumes; otherwise it names the second. |
| `Records.ParentLinesToVolume` | salomeToElmer.py:152 | When `mesh.elements` is complete, a boundary line's parent 1 points at the `mesh.elements` line with that ID, which describes the parent volume. |
| `Export.DenseIdsInRange` | salomeToElmer.py:118-122 | Past the density check, every element ID indexes `invElemIDs`. |
| `Export.ExportToElmer` | salomeToElmer.py:79-184 | The header is always complete. An empty list or a failed density check fails before names, elements or boundary get a line. Otherwise `mesh.names` is the full registry and `mesh.elements` stops only at an unknown type. `mesh.boundary` is reached only when `mesh.elements` is complete, and the failure reported is the first one met. |
| `Export.ExportDense` | salomeToElmer.py:106-184 | Past the density check, the arrays, group passes and record loops produce the registry and the element files described above. |
| `Export.CompleteExport` | salomeToElmer.py:149-181 | In a successful export, every boundary element has a line. Volume and boundary lines are numbered 1.. in enumeration order and carry their element's group. |
| `Scenario.TetrahedronTypeLines` | salomeToElmer.py:91-93 | For one tetrahedron with four triangles, the type lines are `303 4` and `504 1`. |
| `Scenario.TetrahedronHeader` | salomeToElmer.py:80-93 | For one tetrahedron with four triangles, the header is `4 1 4`, `2`, `303 4`, `504 1`. |
| `Scenario.TetrahedronElements` | salomeToElmer.py:149-156 | For that mesh, mesh.elements, whatever its length, is the one line `1 1 504` followed by the tetrahedron's nodes. |
| `Scenario.TetrahedronBoundary` | salomeToElmer.py:162-181 | For that mesh, mesh.boundary has four lines. Line k is `k+1 1 1 0 303` followed by the nodes of triangle k+1, and nothing fails. |
| `Scenario.TetrahedronNames` | salomeToElmer.py:125-143 | For that mesh, with no groups, `mesh.names` is the two comments and `empty = 1`. |
| `Scenario.ExportTetrahedron` | salomeToElmer.py:79-184 | The export of that mesh succeeds, and all four modelled files are fixed. The registry is the two comments and `empty = 1`. |

## Left out

- Directory creation, and opening, flushing and closing the files, including the silent `return` when the files cannot be opened: this is I/O.
- `mesh.nodes`: it copies floating-point coordinates through `%.12g` formatting and a foreign call.
- Text formatting: lines are modelled as their integers in order, and `mesh.names` lines as `NameLine` values. The model does not pin the exact characters.
- `BaryCenter` and `FindElementsByPoint`: opaque floating-point geometry inside Salome, replaced by the `parents` input.
- The other SMESH queries (`GetMeshInfo`, `GetElementsByType`, `GetGroups`, `GetElemNodes`, `GetElementGeomType`, `NbNodes` and the like): their results are fields of `Mesh`. `NbVolumes()` is taken to equal `|volumeIDs|`, `NbElements()` to equal the length of `edgeIDs + faceIDs + volumeIDs`, and `NbEdges()+NbFaces()` to equal `|edgeIDs| + |faceIDs|`.
- Python negative indexing: IDs of 0 or less would index from the end of a list. `WellFormed` excludes them, since Salome element IDs start at 1.
- `len(parents) is 2` is modelled as an integer comparison, which is how CPython evaluates it for small integers.
- Timing and printing.
- `findSelectedMeshes` and `main`: these are Salome GUI selection and the driver.
- `Header.HeaderCountsEveryElement`: this needs `GetMeshInfo` to agree with the per-element types. Salome guarantees that, but the model takes it as a hypothesis.
- `GroupResolution.GroupInRange` and `GroupResolution.LowestBoundaryWins`: these assume the volume and face groups are among the `NbGroups()` groups of the mesh. The model takes that from Salome as a hypothesis.
