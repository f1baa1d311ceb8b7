/**
 * The join and null-filling stage (app.py:76-83): interactions are
 * left-joined to the user directory on `UserId == sub`, then missing
 * `region` and `jobTitle` values are filled; when either table is empty no
 * join happens and the interaction table is the result.
 */
module Enrichment {
  import opened Wrappers
  import opened Extraction

  /** One row of the user directory: the columns the join and the fill use. */
  datatype UserRow = UserRow(sub: Option<string>, region: Option<string>, jobTitle: Option<string>)

  /** One row of `pd.merge(..., how="left")`: the interaction and the matched user's columns, NaN when none. */
  datatype MergedRow = MergedRow(interaction: Interaction, sub: Option<string>, region: Option<string>, jobTitle: Option<string>)

  /** One row of the master table after `fillna`: `region` and `jobTitle` are always present. */
  datatype EnrichedRow = EnrichedRow(interaction: Interaction, sub: Option<string>, region: string, jobTitle: string)

  /** `df_master`: the joined and filled table, or the interaction table itself when no join happened. */
  datatype Master = Joined(joined: seq<EnrichedRow>) | Unjoined(plain: seq<Interaction>)

  const UnknownRegion: string := "Desconocida"
  const UnspecifiedJob: string := "Sin especificar"

  /**
   * The user rows whose `sub` equals `id`, in directory order: each matching
   * row as often as it occurs in the directory, no other row.
   */
  function Matching(id: string, users: seq<UserRow>): (m: seq<UserRow>)
    ensures |m| <= |users|
    ensures forall u :: u in m <==> u in users && u.sub == Some(id)
    ensures forall u :: multiset(m)[u] == if u.sub == Some(id) then multiset(users)[u] else 0
  {
    if users == [] then []
    else
      var last := users[|users| - 1];
      assert users == users[..|users| - 1] + [last];
      Matching(id, users[..|users| - 1]) + (if last.sub == Some(id) then [last] else [])
  }

  /**
   * The matches keep directory order: the matches in two consecutive stretches
   * of the directory are those of the first stretch followed by those of the second.
   */
  lemma {:induction false} MatchingAppend(id: string, a: seq<UserRow>, b: seq<UserRow>)
    ensures Matching(id, a + b) == Matching(id, a) + Matching(id, b)
    decreases |b|
  {
    if b != [] {
      var b' := b[..|b| - 1];
      assert (a + b)[..|a + b| - 1] == a + b';
      MatchingAppend(id, a, b');
    } else {
      assert a + b == a;
    }
  }

  /** The rows the left join produces for one interaction: one per matching user, or one NaN row. */
  function MergeOne(i: Interaction, users: seq<UserRow>): (rows: seq<MergedRow>)
    ensures |rows| == if Matching(i.userId, users) == [] then 1 else |Matching(i.userId, users)|
  {
    var m := Matching(i.userId, users);
    if m == [] then [MergedRow(i, None, None, None)]
    else seq(|m|, k requires 0 <= k < |m| => MergedRow(i, m[k].sub, m[k].region, m[k].jobTitle))
  }

  /**
   * Line 78: `pd.merge(df_conv, df_users, left_on="UserId", right_on="sub", how="left")`.
   * Each interaction gives at least one row, so the left join never loses rows.
   */
  function Merge(conv: seq<Interaction>, users: seq<UserRow>): (r: seq<MergedRow>)
    ensures |r| >= |conv|
  {
    if conv == [] then []
    else Merge(conv[..|conv| - 1], users) + MergeOne(conv[|conv| - 1], users)
  }

  /**
   * Lines 80-81: `fillna` on `region` and `jobTitle`: row for row, a present
   * value is kept and a null one becomes "Desconocida" / "Sin especificar";
   * the interaction and `sub` are untouched.
   */
  function FillNa(rows: seq<MergedRow>): (r: seq<EnrichedRow>)
    ensures |r| == |rows|
    ensures forall k :: 0 <= k < |rows| ==>
      r[k].interaction == rows[k].interaction && r[k].sub == rows[k].sub
      && (rows[k].region.Some? ==> r[k].region == rows[k].region.value)
      && (rows[k].region.None? ==> r[k].region == UnknownRegion)
      && (rows[k].jobTitle.Some? ==> r[k].jobTitle == rows[k].jobTitle.value)
      && (rows[k].jobTitle.None? ==> r[k].jobTitle == UnspecifiedJob)
  {
    seq(|rows|, k requires 0 <= k < |rows| =>
      EnrichedRow(rows[k].interaction, rows[k].sub,
                  rows[k].region.GetOr(UnknownRegion), rows[k].jobTitle.GetOr(UnspecifiedJob)))
  }

  /** Lines 77-83: join and fill when both tables have rows, otherwise the interaction table. */
  function BuildMaster(conv: seq<Interaction>, users: seq<UserRow>): (m: Master)
    ensures m.Unjoined? <==> conv == [] || users == []
    ensures m.Unjoined? ==> m.plain == conv
    ensures m.Joined? ==> |m.joined| >= |conv|
  {
    if conv != [] && users != [] then
      Joined(FillNa(Merge(conv, users)))
    else
      Unjoined(conv)
  }

  /** The interaction column of a merged table. */
  function Lefts(rows: seq<MergedRow>): seq<Interaction> {
    seq(|rows|, k requires 0 <= k < |rows| => rows[k].interaction)
  }

  lemma LeftsAppend(a: seq<MergedRow>, b: seq<MergedRow>)
    ensures Lefts(a + b) == Lefts(a) + Lefts(b)
  {
  }

  /** No two user rows share a `sub`. */
  predicate SubUnique(users: seq<UserRow>) {
    forall j, k :: 0 <= j < k < |users| && users[j].sub.Some? ==> users[j].sub != users[k].sub
  }

  /** A merged row for `i` carries a matching user's columns, or NaN when no user matches. */
  predicate MergedFrom(i: Interaction, users: seq<UserRow>, r: MergedRow) {
    r.interaction == i
    && ((exists u :: u in users && u.sub == Some(i.userId) && r == MergedRow(i, u.sub, u.region, u.jobTitle))
        || ((forall u :: u in users ==> u.sub != Some(i.userId)) && r == MergedRow(i, None, None, None)))
  }

  /** A filled row for `i` carries a matching user's values with nulls filled, or both sentinels. */
  predicate EnrichedFrom(i: Interaction, users: seq<UserRow>, r: EnrichedRow) {
    r.interaction == i
    && ((exists u :: u in users && u.sub == Some(i.userId) && r.sub == u.sub
                     && r.region == u.region.GetOr(UnknownRegion) && r.jobTitle == u.jobTitle.GetOr(UnspecifiedJob))
        || ((forall u :: u in users ==> u.sub != Some(i.userId))
            && r.sub.None? && r.region == UnknownRegion && r.jobTitle == UnspecifiedJob))
  }

  /** Every row for one interaction comes from a matching user or is the NaN row, and every matching user has a row. */
  lemma MergeOneRows(i: Interaction, users: seq<UserRow>)
    ensures forall r :: r in MergeOne(i, users) ==> MergedFrom(i, users, r)
    ensures forall u :: u in users && u.sub == Some(i.userId) ==> MergedRow(i, u.sub, u.region, u.jobTitle) in MergeOne(i, users)
  {
    var m := Matching(i.userId, users);
    var rows := MergeOne(i, users);
    if m != [] {
      forall r | r in rows
        ensures MergedFrom(i, users, r)
      {
        var k :| 0 <= k < |rows| && rows[k] == r;
        assert m[k] in m;
      }
      forall u | u in users && u.sub == Some(i.userId)
        ensures MergedRow(i, u.sub, u.region, u.jobTitle) in rows
      {
        var k :| 0 <= k < |m| && m[k] == u;
        assert rows[k] == MergedRow(i, u.sub, u.region, u.jobTitle);
      }
    }
  }

  /** The merge is row-wise: merging two halves of the interaction table gives the two halves of the result. */
  lemma {:induction false} MergeAppend(a: seq<Interaction>, b: seq<Interaction>, users: seq<UserRow>)
    ensures Merge(a + b, users) == Merge(a, users) + Merge(b, users)
    decreases |b|
  {
    if b != [] {
      var b' := b[..|b| - 1];
      assert (a + b)[..|a + b| - 1] == a + b';
      MergeAppend(a, b', users);
    } else {
      assert a + b == a;
    }
  }

  lemma {:induction false} NoMatchingUser(id: string, users: seq<UserRow>)
    requires forall u :: u in users ==> u.sub != Some(id)
    ensures Matching(id, users) == []
    decreases |users|
  {
    if users != [] {
      NoMatchingUser(id, users[..|users| - 1]);
    }
  }

  /** Every row produced for an interaction carries that interaction. */
  lemma MergeOneKeepsInteraction(i: Interaction, users: seq<UserRow>)
    ensures Lefts(MergeOne(i, users)) == seq(|MergeOne(i, users)|, _ => i)
  {
  }

  /** With a unique `sub`, a user row matches an interaction at most once. */
  lemma {:induction false} UniqueSubMatchesOnce(id: string, users: seq<UserRow>)
    requires SubUnique(users)
    ensures |Matching(id, users)| <= 1
    decreases |users|
  {
    if users != [] {
      var init := users[..|users| - 1];
      assert SubUnique(init);
      UniqueSubMatchesOnce(id, init);
      var last := users[|users| - 1];
      if last.sub == Some(id) {
        forall u | u in init
          ensures u.sub != Some(id)
        {
          var j :| 0 <= j < |init| && init[j] == u;
          assert users[j] == u;
        }
        NoMatchingUser(id, init);
      }
    }
  }

  /** With a unique `sub`, the join keeps the interaction table row for row. */
  lemma {:induction false} MergeUniqueKeepsRows(conv: seq<Interaction>, users: seq<UserRow>)
    requires SubUnique(users)
    ensures Lefts(Merge(conv, users)) == conv
    decreases |conv|
  {
    if conv != [] {
      var init := conv[..|conv| - 1];
      var last := conv[|conv| - 1];
      MergeUniqueKeepsRows(init, users);
      var one := MergeOne(last, users);
      MergeOneUnique(last, users);
      LeftsAppend(Merge(init, users), one);
      assert conv == init + [last];
    }
  }

  /** With a unique `sub`, one interaction gives exactly one row. */
  lemma MergeOneUnique(i: Interaction, users: seq<UserRow>)
    requires SubUnique(users)
    ensures Lefts(MergeOne(i, users)) == [i]
  {
    UniqueSubMatchesOnce(i.userId, users);
    MergeOneKeepsInteraction(i, users);
  }

  /** Every merged row belongs to an interaction of the table and is matched or NaN, as MergedFrom says. */
  lemma {:induction false} MergeRowsFrom(conv: seq<Interaction>, users: seq<UserRow>)
    ensures forall r :: r in Merge(conv, users) ==> r.interaction in conv && MergedFrom(r.interaction, users, r)
    decreases |conv|
  {
    if conv != [] {
      var init := conv[..|conv| - 1];
      var last := conv[|conv| - 1];
      MergeRowsFrom(init, users);
      MergeOneRows(last, users);
      forall r | r in Merge(conv, users)
        ensures r.interaction in conv && MergedFrom(r.interaction, users, r)
      {
        if r in Merge(init, users) {
          assert r.interaction in init;
        }
      }
    }
  }

  /** Every interaction, and every pairing of it with a matching user, appears in the merge. */
  lemma {:induction false} MergeCoversInteractions(conv: seq<Interaction>, users: seq<UserRow>)
    ensures forall i :: i in conv ==> exists r :: r in Merge(conv, users) && r.interaction == i
    ensures forall i, u :: i in conv && u in users && u.sub == Some(i.userId) ==>
      MergedRow(i, u.sub, u.region, u.jobTitle) in Merge(conv, users)
    decreases |conv|
  {
    if conv != [] {
      var init := conv[..|conv| - 1];
      var last := conv[|conv| - 1];
      MergeCoversInteractions(init, users);
      MergeOneRows(last, users);
      var one := MergeOne(last, users);
      assert one[0] in one;
      forall i | i in conv
        ensures exists r :: r in Merge(conv, users) && r.interaction == i
      {
        if i in init {
          var r :| r in Merge(init, users) && r.interaction == i;
          assert r in Merge(conv, users);
        } else {
          assert i == last;
          assert one[0] in Merge(conv, users);
        }
      }
    }
  }

  /**
   * After the join, every row belongs to an interaction of the table and has
   * `region` and `jobTitle`: a matched user's non-null values unchanged,
   * "Desconocida" / "Sin especificar" for null values and unmatched rows.
   */
  lemma JoinedRowsFilled(conv: seq<Interaction>, users: seq<UserRow>)
    requires conv != [] && users != []
    ensures forall r :: r in BuildMaster(conv, users).joined ==> r.interaction in conv && EnrichedFrom(r.interaction, users, r)
  {
    var merged := Merge(conv, users);
    var filled := FillNa(merged);
    MergeRowsFrom(conv, users);
    forall r | r in filled
      ensures r.interaction in conv && EnrichedFrom(r.interaction, users, r)
    {
      var k :| 0 <= k < |filled| && filled[k] == r;
      assert merged[k] in merged;
    }
  }

  /**
   * With a unique `sub`, the master table has exactly one row per
   * interaction, in order, enriched with its user's values or the sentinels.
   */
  lemma JoinWithUniqueSub(conv: seq<Interaction>, users: seq<UserRow>)
    requires conv != [] && users != [] && SubUnique(users)
    ensures |BuildMaster(conv, users).joined| == |conv|
    ensures forall k :: 0 <= k < |conv| ==>
      BuildMaster(conv, users).joined[k].interaction == conv[k]
      && EnrichedFrom(conv[k], users, BuildMaster(conv, users).joined[k])
  {
    MergeUniqueKeepsRows(conv, users);
    JoinedRowsFilled(conv, users);
    var rows := BuildMaster(conv, users).joined;
    forall k | 0 <= k < |conv|
      ensures rows[k].interaction == conv[k] && EnrichedFrom(conv[k], users, rows[k])
    {
      assert rows[k] in rows;
    }
  }

  /** With either table empty there is no join and no filling: the interaction table is returned as is. */
  lemma EmptyTableSkipsJoin(conv: seq<Interaction>, users: seq<UserRow>)
    requires conv == [] || users == []
    ensures BuildMaster(conv, users) == Unjoined(conv)
  {
  }
}
