/**
 * Interaction extraction (app.py:53-71): the objects of the consolidated JSON
 * array are filtered (a non-empty `PK`, no `BOT_ALIAS` in `SK`) and each kept
 * one is projected to a flat record, in input order.
 */
module Extraction {
  import opened Wrappers
  import opened Strings

  /** One object of the JSON array; `None` stands for a key the object does not have. */
  datatype Item = Item(
    pk: Option<string>,
    sk: Option<string>,
    createTime: Option<int>,   // epoch milliseconds
    title: Option<string>,
    totalPrice: Option<int>)

  /** One row of the interaction table: columns UserId, Fecha, Titulo, Costo. */
  datatype Interaction = Interaction(
    userId: string,
    fecha: Option<int>,        // epoch milliseconds; None is a missing timestamp
    titulo: string,
    costo: int)

  /** The sort-key marker of the bot's own metadata rows. */
  const BotAliasMarker: string := "BOT_ALIAS"
  /** The title of an interaction whose object has no `Title`. */
  const DefaultTitle: string := "Interacción General"

  /**
   * Line 62: `pk and "BOT_ALIAS" not in sk`, with `PK` and `SK` defaulting to "":
   * the object has a non-empty `PK`, and `BOT_ALIAS` occurs nowhere in its `SK`.
   */
  predicate IsInteraction(item: Item)
    ensures IsInteraction(item) <==>
      item.pk.Some? && item.pk.value != ""
      && !(exists i :: OccursAt(item.sk.GetOr(""), BotAliasMarker, i))
  {
    ContainsIff(item.sk.GetOr(""), BotAliasMarker);
    item.pk.GetOr("") != "" && !Contains(item.sk.GetOr(""), BotAliasMarker)
  }

  /** Lines 63-64: no timestamp when `CreateTime` is absent or falsy (0), otherwise that timestamp. */
  function Fecha(createTime: Option<int>): (r: Option<int>)
    ensures r.None? <==> createTime.None? || createTime == Some(0)
    ensures r.Some? ==> r == createTime
  {
    if createTime.Some? && createTime.value != 0 then Some(createTime.value) else None
  }

  /** The field-by-field relation between a kept object and its record. */
  predicate RecordOf(item: Item, rec: Interaction) {
    && item.pk == Some(rec.userId)
    && rec.userId != ""
    && rec.titulo == (if item.title.Some? then item.title.value else DefaultTitle)
    && rec.costo == (if item.totalPrice.Some? then item.totalPrice.value else 0)
    && (rec.fecha.None? <==> item.createTime.None? || item.createTime == Some(0))
    && (rec.fecha.Some? ==> item.createTime == rec.fecha)
  }

  /**
   * Lines 66-71: the record appended for a kept object: UserId is `PK`, Titulo
   * is `Title` or "Interacción General", Costo is `TotalPrice` or 0, and Fecha
   * is absent exactly when `CreateTime` is missing or 0.
   */
  function ToInteraction(item: Item): (r: Interaction)
    ensures IsInteraction(item) ==> RecordOf(item, r)
  {
    Interaction(item.pk.GetOr(""), Fecha(item.createTime), item.title.GetOr(DefaultTitle), item.totalPrice.GetOr(0))
  }

  /** The interaction table built from `data`, one kept object after another. */
  function Extract(data: seq<Item>): (r: seq<Interaction>)
    ensures |r| <= |data|
  {
    if data == [] then []
    else
      var last := data[|data| - 1];
      Extract(data[..|data| - 1]) + (if IsInteraction(last) then [ToInteraction(last)] else [])
  }

  /** The positions in `data` of the objects that are kept, in order. */
  function KeptIndices(data: seq<Item>): seq<nat> {
    if data == [] then []
    else KeptIndices(data[..|data| - 1]) + (if IsInteraction(data[|data| - 1]) then [|data| - 1] else [])
  }

  /** The kept positions are in range, ascending, and exactly those of objects that pass the filter. */
  lemma {:induction false} KeptIndicesExact(data: seq<Item>)
    ensures forall k :: 0 <= k < |KeptIndices(data)| ==>
      KeptIndices(data)[k] < |data| && IsInteraction(data[KeptIndices(data)[k]])
    ensures forall k, l :: 0 <= k < l < |KeptIndices(data)| ==> KeptIndices(data)[k] < KeptIndices(data)[l]
    ensures forall i :: 0 <= i < |data| && IsInteraction(data[i]) ==> i in KeptIndices(data)
    decreases |data|
  {
    if data != [] {
      var n := |data|;
      var init := data[..n - 1];
      KeptIndicesExact(init);
      assert forall i :: 0 <= i < n - 1 ==> init[i] == data[i];
      var before := KeptIndices(init);
      assert forall k :: 0 <= k < |before| ==> before[k] < n - 1;
    }
  }

  /** Record `k` of the table is the projection of the object at the `k`-th kept position. */
  lemma {:induction false} ExtractAtKept(data: seq<Item>)
    ensures |Extract(data)| == |KeptIndices(data)|
    ensures forall k :: 0 <= k < |KeptIndices(data)| ==>
      KeptIndices(data)[k] < |data| && Extract(data)[k] == ToInteraction(data[KeptIndices(data)[k]])
    decreases |data|
  {
    if data != [] {
      var n := |data|;
      var init := data[..n - 1];
      ExtractAtKept(init);
      assert forall i :: 0 <= i < n - 1 ==> init[i] == data[i];
    }
  }

  /**
   * The table has one record per kept object, in input order: record `k`
   * comes from the `k`-th object that passes the filter, every object that
   * passes it is used, and no other object is.
   */
  lemma {:induction false} ExtractIsFilteredProjection(data: seq<Item>)
    ensures |Extract(data)| == |KeptIndices(data)|
    ensures forall k :: 0 <= k < |KeptIndices(data)| ==>
      KeptIndices(data)[k] < |data|
      && IsInteraction(data[KeptIndices(data)[k]])
      && RecordOf(data[KeptIndices(data)[k]], Extract(data)[k])
    ensures forall k, l :: 0 <= k < l < |KeptIndices(data)| ==> KeptIndices(data)[k] < KeptIndices(data)[l]
    ensures forall i :: 0 <= i < |data| && IsInteraction(data[i]) ==> i in KeptIndices(data)
  {
    KeptIndicesExact(data);
    ExtractAtKept(data);
  }

  /** Every record comes from an object with a non-empty `PK` and no `BOT_ALIAS` in `SK`. */
  lemma {:induction false} RecordsComeFromInteractions(data: seq<Item>, rec: Interaction)
    requires rec in Extract(data)
    ensures exists item :: item in data && item.pk == Some(rec.userId) && rec.userId != ""
                           && !Contains(item.sk.GetOr(""), BotAliasMarker) && RecordOf(item, rec)
  {
    ExtractIsFilteredProjection(data);
    var k :| 0 <= k < |Extract(data)| && Extract(data)[k] == rec;
  }

  /** Lines 53-71: the loop that appends one record per kept object. */
  method ExtractInteractions(data: seq<Item>) returns (records: seq<Interaction>)
    ensures records == Extract(data)
  {
    records := [];
    var i := 0;
    while i < |data|
      invariant 0 <= i <= |data|
      invariant records == Extract(data[..i])
    {
      var item := data[i];
      assert data[..i + 1][..i] == data[..i];
      if IsInteraction(item) {
        records := records + [ToInteraction(item)];
      }
      i := i + 1;
    }
    assert data[..i] == data;
  }
}
