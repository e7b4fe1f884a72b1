/**
 * Group resolution: each element's entry of `elemGrp`, the names registry
 * written to mesh.names, and the two assignment passes that build them.
 */
module GroupResolution {
  import opened MeshData
  import opened Renumbering

  /**
   * The body ID a volume-group pass leaves for element `e`, whose entry held
   * `initial`: the 1-based index of the LAST group listing `e`, or `initial`
   * when no group lists it.
   */
  function BodyOf(groups: seq<Group>, e: int, initial: int): (r: int)
    ensures (forall i :: 0 <= i < |groups| ==> e !in groups[i].ids) ==> r == initial
    ensures forall i :: 0 <= i < |groups| && e in groups[i].ids ==>
      i < r <= |groups| && e in groups[r - 1].ids &&
      forall j :: r <= j < |groups| ==> e !in groups[j].ids
  {
    if |groups| == 0 then initial
    else if e in groups[|groups| - 1].ids then |groups|
    else
      var r := BodyOf(groups[..|groups| - 1], e, initial);
      assert forall i :: 0 <= i < |groups| - 1 ==> groups[i] == groups[..|groups| - 1][i];
      r
  }

  /**
   * The entry a face-group pass leaves for element `e`, whose entry held
   * `initial`, when the groups are numbered from `firstId`: the smallest of
   * `initial` and the IDs of the groups listing `e`.
   */
  function BoundaryOf(groups: seq<Group>, e: int, initial: int, firstId: int): (r: int)
    ensures r <= initial
    ensures forall j :: 0 <= j < |groups| && e in groups[j].ids ==> r <= firstId + j
    ensures r == initial || exists j :: 0 <= j < |groups| && e in groups[j].ids && r == firstId + j
  {
    if |groups| == 0 then initial
    else
      var n := |groups| - 1;
      var r := BoundaryOf(groups[..n], e, initial, firstId);
      assert forall j :: 0 <= j < n ==> groups[j] == groups[..n][j];
      if e in groups[n].ids && firstId + n < r then firstId + n else r
  }

  /** One more volume group: it sets its members' entries to its ID. */
  lemma BodyOfStep(groups: seq<Group>, g: nat, e: int, initial: int)
    requires g < |groups|
    ensures BodyOf(groups[..g + 1], e, initial) ==
      if e in groups[g].ids then g + 1 else BodyOf(groups[..g], e, initial)
  {
    assert groups[..g + 1][..g] == groups[..g];
  }

  /** One more face group: it lowers its members' entries to its ID. */
  lemma BoundaryOfStep(groups: seq<Group>, g: nat, e: int, initial: int, firstId: int)
    requires g < |groups|
    ensures var before := BoundaryOf(groups[..g], e, initial, firstId);
      BoundaryOf(groups[..g + 1], e, initial, firstId) ==
      if e in groups[g].ids && firstId + g < before then firstId + g else before
  {
    assert groups[..g + 1][..g] == groups[..g];
  }

  /** The final `elemGrp` entry of element `e`: volume groups first, then face groups. */
  function GroupOf(m: Mesh, e: int): int
  {
    BoundaryOf(m.faceGroups, e, BodyOf(m.volumeGroups, e, m.nbGroups + 1), |m.volumeGroups| + 1)
  }

  /** `elemGrp` as the export leaves it, indexed by position in the combined order. */
  function GroupTable(m: Mesh): (t: seq<int>)
    ensures |t| == |ElemIDs(m)|
  {
    var ids := ElemIDs(m);
    seq(|ids|, s requires 0 <= s < |ids| => GroupOf(m, ids[s]))
  }

  /** Volume-group members ignore face groups: the last volume group to list them wins. */
  lemma LastBodyWins(m: Mesh, e: int, i: nat)
    requires i < |m.volumeGroups| && e in m.volumeGroups[i].ids
    requires forall j :: i < j < |m.volumeGroups| ==> e !in m.volumeGroups[j].ids
    ensures GroupOf(m, e) == i + 1
  {
  }

  /**
   * An element in no volume group takes the first (lowest-numbered) face group
   * that lists it, whatever later face groups list it too.
   */
  lemma LowestBoundaryWins(m: Mesh, e: int, j: nat)
    requires |m.volumeGroups| + |m.faceGroups| <= m.nbGroups
    requires forall i :: 0 <= i < |m.volumeGroups| ==> e !in m.volumeGroups[i].ids
    requires j < |m.faceGroups| && e in m.faceGroups[j].ids
    requires forall i :: 0 <= i < j ==> e !in m.faceGroups[i].ids
    ensures GroupOf(m, e) == |m.volumeGroups| + 1 + j
  {
  }

  /** An element listed by no group keeps the "empty" ID. */
  lemma UngroupedIsEmpty(m: Mesh, e: int)
    requires forall i :: 0 <= i < |m.volumeGroups| ==> e !in m.volumeGroups[i].ids
    requires forall j :: 0 <= j < |m.faceGroups| ==> e !in m.faceGroups[j].ids
    ensures GroupOf(m, e) == m.nbGroups + 1
  {
  }

  /**
   * When the groups read are among the mesh's `NbGroups()`, every entry is a
   * group ID or the "empty" ID; a member of a face group and of no volume
   * group gets a face-group ID.
   */
  lemma GroupInRange(m: Mesh, e: int)
    requires |m.volumeGroups| + |m.faceGroups| <= m.nbGroups
    ensures 1 <= GroupOf(m, e) <= m.nbGroups + 1
    ensures (forall i :: 0 <= i < |m.volumeGroups| ==> e !in m.volumeGroups[i].ids) &&
            (exists j :: 0 <= j < |m.faceGroups| && e in m.faceGroups[j].ids) ==>
            |m.volumeGroups| < GroupOf(m, e) <= |m.volumeGroups| + |m.faceGroups|
  {
  }

  /**
   * mesh.names: the bodies comment, one entry per volume group numbered from 1,
   * the boundaries comment, one entry per face group numbered on from there,
   * and the "empty" entry.
   */
  predicate IsNamesRegistry(names: seq<NameLine>, m: Mesh)
  {
    var nv, nf := |m.volumeGroups|, |m.faceGroups|;
    |names| == nv + nf + 3 &&
    names[0] == BodiesComment &&
    (forall i :: 0 <= i < nv ==> names[1 + i] == Entry(m.volumeGroups[i].name, i + 1)) &&
    names[nv + 1] == BoundariesComment &&
    (forall j :: 0 <= j < nf ==> names[nv + 2 + j] == Entry(m.faceGroups[j].name, nv + 1 + j)) &&
    names[nv + nf + 2] == Entry("empty", m.nbGroups + 1)
  }

  /** The slot of element `e` in `elemGrp`, read through `invElemIDs`, is its position. */
  lemma SlotOf(ids: seq<int>, inv: seq<int>, e: int) returns (p: nat)
    requires Distinct(ids) && IsInverse(ids, inv) && e in ids
    ensures p < |ids| && ids[p] == e && 1 <= e <= |inv| && inv[e - 1] == p + 1
    ensures forall s :: 0 <= s < |ids| && ids[s] == e ==> s == p
  {
    p :| 0 <= p < |ids| && ids[p] == e;
  }

  /**
   * The volume-group pass: group i (0-based) gets ID i+1 and is written to the
   * registry; each member's entry is set to it unconditionally.
   */
  method AssignBodies(elemGrp: array<int>, inv: seq<int>, ids: seq<int>, groups: seq<Group>)
    returns (entries: seq<NameLine>)
    requires elemGrp.Length == |ids| && Distinct(ids) && IsInverse(ids, inv)
    requires MembersAreElements(groups, ids)
    modifies elemGrp
    ensures forall s :: 0 <= s < |ids| ==> elemGrp[s] == BodyOf(groups, ids[s], old(elemGrp[s]))
    ensures |entries| == |groups|
    ensures forall i :: 0 <= i < |groups| ==> entries[i] == Entry(groups[i].name, i + 1)
  {
    entries := [];
    var groupID := 1;
    for g := 0 to |groups|
      invariant groupID == g + 1
      invariant |entries| == g
      invariant forall i :: 0 <= i < g ==> entries[i] == Entry(groups[i].name, i + 1)
      invariant forall s :: 0 <= s < |ids| ==> elemGrp[s] == BodyOf(groups[..g], ids[s], old(elemGrp[s]))
    {
      entries := entries + [Entry(groups[g].name, groupID)];
      var members := groups[g].ids;
      for t := 0 to |members|
        invariant forall s :: 0 <= s < |ids| ==>
          elemGrp[s] == if ids[s] in members[..t] then groupID else BodyOf(groups[..g], ids[s], old(elemGrp[s]))
      {
        var el := members[t];
        assert el in groups[g].ids;
        var p := SlotOf(ids, inv, el);
        assert members[..t + 1] == members[..t] + [el];
        elemGrp[inv[el - 1] - 1] := groupID;
      }
      assert members[..|members|] == members;
      forall s | 0 <= s < |ids|
        ensures elemGrp[s] == BodyOf(groups[..g + 1], ids[s], old(elemGrp[s]))
      {
        BodyOfStep(groups, g, ids[s], old(elemGrp[s]));
      }
      groupID := groupID + 1;
    }
    assert groups[..|groups|] == groups;
  }

  /**
   * The face-group pass: group j (0-based) gets ID firstId+j and is written to
   * the registry; a member's entry takes it only when it is smaller than the
   * entry's current value.
   */
  method AssignBoundaries(elemGrp: array<int>, inv: seq<int>, ids: seq<int>, groups: seq<Group>, firstId: int)
    returns (entries: seq<NameLine>)
    requires elemGrp.Length == |ids| && Distinct(ids) && IsInverse(ids, inv)
    requires MembersAreElements(groups, ids)
    modifies elemGrp
    ensures forall s :: 0 <= s < |ids| ==> elemGrp[s] == BoundaryOf(groups, ids[s], old(elemGrp[s]), firstId)
    ensures |entries| == |groups|
    ensures forall j :: 0 <= j < |groups| ==> entries[j] == Entry(groups[j].name, firstId + j)
  {
    entries := [];
    var groupID := firstId;
    for g := 0 to |groups|
      invariant groupID == firstId + g
      invariant |entries| == g
      invariant forall j :: 0 <= j < g ==> entries[j] == Entry(groups[j].name, firstId + j)
      invariant forall s :: 0 <= s < |ids| ==>
        elemGrp[s] == BoundaryOf(groups[..g], ids[s], old(elemGrp[s]), firstId)
    {
      entries := entries + [Entry(groups[g].name, groupID)];
      var members := groups[g].ids;
      for t := 0 to |members|
        invariant forall s :: 0 <= s < |ids| ==>
          var before := BoundaryOf(groups[..g], ids[s], old(elemGrp[s]), firstId);
          elemGrp[s] == if ids[s] in members[..t] && groupID < before then groupID else before
      {
        var el := members[t];
        assert el in groups[g].ids;
        var p := SlotOf(ids, inv, el);
        assert members[..t + 1] == members[..t] + [el];
        if elemGrp[inv[el - 1] - 1] > groupID {
          elemGrp[inv[el - 1] - 1] := groupID;
        }
      }
      assert members[..|members|] == members;
      forall s | 0 <= s < |ids|
        ensures elemGrp[s] == BoundaryOf(groups[..g + 1], ids[s], old(elemGrp[s]), firstId)
      {
        BoundaryOfStep(groups, g, ids[s], old(elemGrp[s]), firstId);
      }
      groupID := groupID + 1;
    }
    assert groups[..|groups|] == groups;
  }

  /** The registry the two passes write, between the comments and before the "empty" entry. */
  lemma RegistryLayout(m: Mesh, bodies: seq<NameLine>, boundaries: seq<NameLine>)
    requires |bodies| == |m.volumeGroups|
    requires forall i :: 0 <= i < |bodies| ==> bodies[i] == Entry(m.volumeGroups[i].name, i + 1)
    requires |boundaries| == |m.faceGroups|
    requires forall j :: 0 <= j < |boundaries| ==>
      boundaries[j] == Entry(m.faceGroups[j].name, |m.volumeGroups| + 1 + j)
    ensures IsNamesRegistry([BodiesComment] + bodies + [BoundariesComment] + boundaries + [Entry("empty", m.nbGroups + 1)], m)
  {
    var names := [BodiesComment] + bodies + [BoundariesComment] + boundaries + [Entry("empty", m.nbGroups + 1)];
    assert forall i :: 0 <= i < |bodies| ==> names[1 + i] == bodies[i];
    assert forall j :: 0 <= j < |boundaries| ==> names[|bodies| + 2 + j] == boundaries[j];
  }

  /**
   * Both passes over an `elemGrp` filled with `NbGroups()+1`, and the names
   * registry they write, closed by the "empty" entry.
   */
  method ResolveGroups(elemGrp: array<int>, inv: seq<int>, m: Mesh) returns (names: seq<NameLine>)
    requires WellFormed(m)
    requires elemGrp.Length == |ElemIDs(m)| && IsInverse(ElemIDs(m), inv)
    requires forall s :: 0 <= s < elemGrp.Length ==> elemGrp[s] == m.nbGroups + 1
    modifies elemGrp
    ensures elemGrp[..] == GroupTable(m)
    ensures IsNamesRegistry(names, m)
  {
    var ids := ElemIDs(m);
    var bodies := AssignBodies(elemGrp, inv, ids, m.volumeGroups);
    ghost var afterBodies := elemGrp[..];
    var boundaries := AssignBoundaries(elemGrp, inv, ids, m.faceGroups, |m.volumeGroups| + 1);
    assert forall s :: 0 <= s < |ids| ==>
      elemGrp[s] == BoundaryOf(m.faceGroups, ids[s], afterBodies[s], |m.volumeGroups| + 1);
    assert forall s :: 0 <= s < |ids| ==> elemGrp[s] == GroupTable(m)[s];
    names := [BodiesComment] + bodies + [BoundariesComment] + boundaries + [Entry("empty", m.nbGroups + 1)];
    RegistryLayout(m, bodies, boundaries);
  }
}
