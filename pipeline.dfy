/**
 * `load_and_process_data` (app.py:34-85) end to end: fragment assembly, the
 * user directory read, extraction from the consolidated JSON file, and the
 * join. Reading the CSV and parsing the JSON are not modelled: the parsed
 * user rows (or their absence) and the JSON parser are parameters.
 */
module Pipeline {
  import opened Wrappers
  import opened Strings
  import opened Assembly
  import opened Extraction
  import opened Enrichment
  import opened Metrics

  /** Why a run stops: the user directory is missing, or a column is read that the table does not have. */
  datatype Error = MissingUserDirectory | MissingColumn(column: string)

  /**
   * Lines 73-83 exactly as written: `pd.DataFrame([])` has no columns, so
   * `df_conv['Fecha']` on line 74 fails whenever no record was extracted,
   * before the emptiness test of line 77 is reached: as written, the
   * `df_conv.empty` half of that guard is never true.
   */
  function ProcessAsWritten(records: seq<Interaction>, users: seq<UserRow>): (r: Result<Master, Error>)
    ensures r.Success? <==> records != []
    ensures r.Success? ==> r.value == BuildMaster(records, users)
  {
    if records == [] then Failure(MissingColumn("Fecha"))
    else Success(BuildMaster(records, users))
  }

  /**
   * A log holding only the bot's metadata row makes the code as written fail,
   * where the stage was meant to yield an empty table with zero KPIs.
   */
  lemma BotOnlyLogFailsAsWritten(users: seq<UserRow>)
    ensures ProcessAsWritten(Extract([Item(Some("u1"), Some("BOT_ALIAS"), None, None, None)]), users)
            == Failure(MissingColumn("Fecha"))
    ensures ComputeKpis(BuildMaster(Extract([Item(Some("u1"), Some("BOT_ALIAS"), None, None, None)]), users))
            == Kpis(0, 0, 0)
  {
    var item := Item(Some("u1"), Some("BOT_ALIAS"), None, None, None);
    assert StartsWith("BOT_ALIAS", BotAliasMarker);
    assert !IsInteraction(item);
    assert [item][..0] == [];
  }

  /** The stage as intended: no interactions give the empty table and zero for every KPI. */
  lemma NoInteractionsGiveZeroKpis(users: seq<UserRow>)
    ensures BuildMaster([], users) == Unjoined([])
    ensures ComputeKpis(BuildMaster([], users)) == Kpis(0, 0, 0)
  {
  }

  /** Lines 54-56: the parsed JSON array of the consolidated file, or nothing when there is no such file. */
  function Data(files: Files, parse: Bytes -> seq<Item>): seq<Item> {
    if OutputFile in files then parse(files[OutputFile]) else []
  }

  /**
   * What one run returns for a working directory that has already been
   * through assembly: it fails exactly when the user directory is missing;
   * otherwise it returns that directory unchanged, with the master table of
   * the extracted interactions. That table is the corrected stage's: it
   * agrees with the code as written whenever at least one interaction was
   * extracted, and otherwise stands for a run the code as written aborts.
   */
  function LoadSpec(files: Files, users: Option<seq<UserRow>>, parse: Bytes -> seq<Item>)
    : (r: Result<(Master, seq<UserRow>), Error>)
    ensures r.Failure? <==> users.None?
    ensures r.Failure? ==> r.error == MissingUserDirectory
    ensures r.Success? ==> r.value.1 == users.value
    ensures r.Success? ==> (r.value.0.Unjoined? <==> Extract(Data(files, parse)) == [] || users.value == [])
    ensures r.Success? && r.value.0.Unjoined? ==> r.value.0.plain == Extract(Data(files, parse))
    ensures r.Success? && OutputFile !in files ==> r.value.0 == Unjoined([])
    ensures r.Success? && Extract(Data(files, parse)) != [] ==>
      ProcessAsWritten(Extract(Data(files, parse)), users.value) == Success(r.value.0)
    ensures r.Success? && Extract(Data(files, parse)) == [] ==>
      ProcessAsWritten(Extract(Data(files, parse)), users.value).Failure?
  {
    if users.None? then Failure(MissingUserDirectory)
    else Success((BuildMaster(Extract(Data(files, parse)), users.value), users.value))
  }

  /**
   * Lines 34-85: assemble the fragments, stop if the user directory is
   * missing (after assembly, as the source does), extract the interactions
   * of the consolidated file if there is one, and join. Returns `df_master`
   * and `df_users`.
   */
  method LoadAndProcessData(dir: WorkingDirectory, users: Option<seq<UserRow>>, parse: Bytes -> seq<Item>)
    returns (result: Result<(Master, seq<UserRow>), Error>)
    modifies dir
    ensures dir.files == Assembled(old(dir.files))
    ensures result == LoadSpec(dir.files, users, parse)
  {
    dir.AssembleFragments();
    if users.None? {
      return Failure(MissingUserDirectory);
    }
    var records: seq<Interaction> := [];
    if OutputFile in dir.files {
      records := ExtractInteractions(parse(dir.files[OutputFile]));
    }
    result := Success((BuildMaster(records, users.value), users.value));
  }

  /** A second run finds the consolidated file in place and returns the same tables. */
  lemma SecondRunSameResult(fs: Files, users: Option<seq<UserRow>>, parse: Bytes -> seq<Item>)
    ensures LoadSpec(Assembled(Assembled(fs)), users, parse) == LoadSpec(Assembled(fs), users, parse)
  {
    AssemblyIdempotent(fs);
  }

  /**
   * With a unique `sub`, a run's KPIs are those of the extracted interactions:
   * as many interactions as kept objects, never more than the objects read.
   */
  lemma LoadKpis(files: Files, users: seq<UserRow>, parse: Bytes -> seq<Item>)
    requires SubUnique(users)
    ensures var data := Data(files, parse);
            var r := LoadSpec(files, Some(users), parse);
            && r.Success?
            && ComputeKpis(r.value.0) == ComputeKpis(Unjoined(Extract(data)))
            && ComputeKpis(r.value.0).interaccionesTotales == |Extract(data)| <= |data|
  {
    UniqueSubKeepsKpis(Extract(Data(files, parse)), users);
  }

  /**
   * A worked run: a bot metadata row, an interaction with a timestamp, title
   * and price, and one with none of them; the directory knows the first user
   * and someone else.
   */
  const ScenarioItems: seq<Item> := [
    Item(Some("u1"), Some("BOT_ALIAS#v1"), None, None, None),
    Item(Some("u1"), Some("CONV#1"), Some(1700000000000), Some("Plan de clase"), Some(12)),
    Item(Some("u2"), Some("CONV#2"), None, None, None)]
  const ScenarioUsers: seq<UserRow> := [UserRow(Some("u1"), Some("Biobío"), Some("Docente")), UserRow(Some("u9"), None, None)]
  const ScenarioFirst: Interaction := Interaction("u1", Some(1700000000000), "Plan de clase", 12)
  const ScenarioSecond: Interaction := Interaction("u2", None, DefaultTitle, 0)

  /** The bot row is dropped; the other two become records with their values and the defaults. */
  lemma ScenarioExtraction()
    ensures Extract(ScenarioItems) == [ScenarioFirst, ScenarioSecond]
  {
    var data := ScenarioItems;
    assert "BOT_ALIAS#v1"[..|BotAliasMarker|] == BotAliasMarker;
    assert !IsInteraction(data[0]);
    assert data[..2][..1] == data[..1];
    assert data[..1][..0] == [];
    assert Extract(data[..1]) == [];
    assert data[..3] == data;
  }

  /** The known user's row carries the directory's values; the unknown one gets both sentinels. */
  lemma ScenarioJoin()
    ensures BuildMaster([ScenarioFirst, ScenarioSecond], ScenarioUsers)
            == Joined([EnrichedRow(ScenarioFirst, Some("u1"), "Biobío", "Docente"),
                       EnrichedRow(ScenarioSecond, None, UnknownRegion, UnspecifiedJob)])
  {
    var users := ScenarioUsers;
    assert users[..1][..0] == [];
    var conv := [ScenarioFirst, ScenarioSecond];
    assert conv[..1][..0] == [];
    assert Merge(conv[..1], users) == [MergedRow(ScenarioFirst, Some("u1"), Some("Biobío"), Some("Docente"))];
    assert Merge(conv, users) == [MergedRow(ScenarioFirst, Some("u1"), Some("Biobío"), Some("Docente")),
                                  MergedRow(ScenarioSecond, None, None, None)];
  }

  /** Two distinct users over two rows: 2 active teachers, 2 interactions, 70 students. */
  lemma EndToEndScenario()
    ensures ComputeKpis(BuildMaster(Extract(ScenarioItems), ScenarioUsers)) == Kpis(2, 2, 70)
  {
    ScenarioExtraction();
    ScenarioJoin();
    var rows := [EnrichedRow(ScenarioFirst, Some("u1"), "Biobío", "Docente"),
                 EnrichedRow(ScenarioSecond, None, UnknownRegion, UnspecifiedJob)];
    ScenarioKpis(rows);
  }

  /** The KPIs of the worked scenario's master table. */
  lemma ScenarioKpis(rows: seq<EnrichedRow>)
    requires rows == [EnrichedRow(ScenarioFirst, Some("u1"), "Biobío", "Docente"),
                      EnrichedRow(ScenarioSecond, None, UnknownRegion, UnspecifiedJob)]
    ensures ComputeKpis(Joined(rows)) == Kpis(2, 2, 70)
  {
    var ids := UserIds(Joined(rows));
    assert ids == ["u1", "u2"];
    assert |{"u1", "u2"}| == 2;
  }
}
