/**
 * The executive KPIs (app.py:98-101): distinct active users, total
 * interactions, and the estimate of 35 students reached per active user.
 */
module Metrics {
  import opened Extraction
  import opened Enrichment

  /** The business assumption of line 100: 35 students per classroom. */
  const StudentsPerTeacher: nat := 35

  /** `usuarios_unicos`, `interacciones_totales`, `alumnos_impactados`. */
  datatype Kpis = Kpis(usuariosUnicos: nat, interaccionesTotales: nat, alumnosImpactados: nat)

  /** The `UserId` column of the master table, whichever branch built it. */
  function UserIds(m: Master): (ids: seq<string>)
    ensures |ids| == (if m.Joined? then |m.joined| else |m.plain|)
  {
    match m
    case Joined(rows) => seq(|rows|, k requires 0 <= k < |rows| => rows[k].interaction.userId)
    case Unjoined(rows) => seq(|rows|, k requires 0 <= k < |rows| => rows[k].userId)
  }

  /** The distinct values of a column, built one row at a time. */
  function Distinct(ids: seq<string>): (d: set<string>)
    ensures |d| <= |ids|
    ensures forall x :: x in d <==> x in ids
  {
    if ids == [] then {}
    else Distinct(ids[..|ids| - 1]) + {ids[|ids| - 1]}
  }

  /** Lines 98-101 over the master table. */
  function ComputeKpis(m: Master): (k: Kpis)
    ensures k.interaccionesTotales == |UserIds(m)|
    ensures k.usuariosUnicos == |set x | x in UserIds(m)|
    ensures k.usuariosUnicos <= k.interaccionesTotales
    ensures k.usuariosUnicos == 0 <==> k.interaccionesTotales == 0
    ensures k.alumnosImpactados == StudentsPerTeacher * k.usuariosUnicos
  {
    var ids := UserIds(m);
    var users := Distinct(ids);
    assert users == set x | x in ids;
    Kpis(|users|, |ids|, StudentsPerTeacher * |users|)
  }

  /** Every UserId of the joined table is the UserId of some interaction. */
  lemma JoinedIdsFromInteractions(conv: seq<Interaction>, users: seq<UserRow>)
    requires conv != [] && users != []
    ensures forall x :: x in UserIds(BuildMaster(conv, users)) ==> x in UserIds(Unjoined(conv))
  {
    var merged := Merge(conv, users);
    var ids := UserIds(BuildMaster(conv, users));
    var convIds := UserIds(Unjoined(conv));
    forall x | x in ids
      ensures x in convIds
    {
      var k :| 0 <= k < |ids| && ids[k] == x;
      assert merged[k] in merged;
      assert merged[k].interaction in conv by {
        MergeRowsFrom(conv, users);
      }
      var j :| 0 <= j < |conv| && conv[j] == merged[k].interaction;
      assert convIds[j] == x;
    }
  }

  /** Every interaction's UserId survives the join. */
  lemma InteractionIdsInJoined(conv: seq<Interaction>, users: seq<UserRow>)
    requires conv != [] && users != []
    ensures forall x :: x in UserIds(Unjoined(conv)) ==> x in UserIds(BuildMaster(conv, users))
  {
    var merged := Merge(conv, users);
    var ids := UserIds(BuildMaster(conv, users));
    var convIds := UserIds(Unjoined(conv));
    forall x | x in convIds
      ensures x in ids
    {
      var j :| 0 <= j < |conv| && convIds[j] == x;
      assert conv[j] in conv;
      assert exists r :: r in merged && r.interaction == conv[j] by {
        MergeCoversInteractions(conv, users);
      }
      var r :| r in merged && r.interaction == conv[j];
      var k :| 0 <= k < |merged| && merged[k] == r;
      assert ids[k] == x;
    }
  }

  /** The join neither adds nor loses a user: the master table has the interaction table's distinct UserIds. */
  lemma JoinKeepsDistinctUsers(conv: seq<Interaction>, users: seq<UserRow>)
    ensures Distinct(UserIds(BuildMaster(conv, users))) == Distinct(UserIds(Unjoined(conv)))
  {
    if conv != [] && users != [] {
      JoinedIdsFromInteractions(conv, users);
      InteractionIdsInJoined(conv, users);
    }
  }

  /** Distinct users and the students estimate are the same before and after the join. */
  lemma JoinKeepsUserKpis(conv: seq<Interaction>, users: seq<UserRow>)
    ensures ComputeKpis(BuildMaster(conv, users)).usuariosUnicos == ComputeKpis(Unjoined(conv)).usuariosUnicos
    ensures ComputeKpis(BuildMaster(conv, users)).alumnosImpactados == ComputeKpis(Unjoined(conv)).alumnosImpactados
  {
    JoinKeepsDistinctUsers(conv, users);
  }

  /** With a unique `sub` all three KPIs equal those of the interaction table: one master row per interaction. */
  lemma UniqueSubKeepsKpis(conv: seq<Interaction>, users: seq<UserRow>)
    requires SubUnique(users)
    ensures ComputeKpis(BuildMaster(conv, users)) == ComputeKpis(Unjoined(conv))
  {
    JoinKeepsUserKpis(conv, users);
    if conv != [] && users != [] {
      JoinWithUniqueSub(conv, users);
    }
  }
}
