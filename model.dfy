/** The task table as a value: every Redis hash the application writes, keyed
    by its key, and the `contador_tarefas` counter that `INCR` advances.

    The functions here say what each request of the application does to that
    value: create (`criar_tarefa`), edit one field (the POST branch of
    `editar_tarefa`), delete (`deletar_tarefa`) and list (`index`).  The class
    in module TaskRepository performs the same steps one store write at a
    time and is proved equal to them. */
module TaskModel {
  import opened TaskKeys

  /** A Redis hash: field name to text value. */
  type Record = map<string, string>

  datatype Store = Store(records: map<string, Record>, counter: nat)

  const TitleField: string := "titulo"
  const DescriptionField: string := "descricao"
  const CreatedAtField: string := "data_criacao"
  const StatusField: string := "status"
  /** The field the listing adds to each entry. */
  const IdField: string := "id"

  /** `STATUS_VALIDOS`. */
  const StatusValues: seq<string> := ["Pendente", "Em Progresso", "Concluída"]
  /** The status every new task starts in. */
  const Pending: string := "Pendente"
  /** The only fields an edit may write. */
  const EditableFields: seq<string> := [TitleField, DescriptionField, StatusField]

  /** Largest value a Redis counter holds (a signed 64-bit integer); `INCR`
      fails instead of going past it. */
  const MaxCounter: nat := 0x7FFF_FFFF_FFFF_FFFF

  /** Python's truthiness test on a form field: present and not empty. */
  predicate Present(v: Option<string>) {
    v.Some? && v.value != ""
  }

  /** The fields of the hash at `key`; an absent key reads as an empty hash. */
  function FieldsAt(records: map<string, Record>, key: string): Record {
    if key in records then records[key] else map[]
  }

  /** `HSET key field value`: creates the hash when the key is absent and sets
      one field of it; every other key and every other field is untouched. */
  function HSet(records: map<string, Record>, key: string, field: string, value: string): (r: map<string, Record>)
    ensures r.Keys == records.Keys + {key}
    ensures forall k :: k in records && k != key ==> r[k] == records[k]
    ensures r[key].Keys == FieldsAt(records, key).Keys + {field} && r[key][field] == value
    ensures forall f :: f in FieldsAt(records, key) && f != field ==> r[key][f] == FieldsAt(records, key)[f]
  {
    records[key := FieldsAt(records, key)[field := value]]
  }

  /** `INCR contador_tarefas`: the next id, or None when the counter is at its
      64-bit maximum. */
  function Incr(counter: nat): (r: Option<nat>)
    ensures r.Some? <==> counter < MaxCounter
    ensures r.Some? ==> r.value == counter + 1
  {
    if counter < MaxCounter then Some(counter + 1) else None
  }

  // ---------------------------------------------------------------- create

  datatype CreateOutcome = Created(id: nat) | MissingInput | CounterOverflow

  /** `criar_tarefa` on a POST: check both inputs, take the next id, then write
      the four fields of `tarefa:<id>` one `HSET` at a time. */
  function CreateStep(s: Store, title: Option<string>, description: Option<string>, now: string): (Store, CreateOutcome)
  {
    if !Present(title) || !Present(description) then (s, MissingInput)
    else
      match Incr(s.counter)
      case None => (s, CounterOverflow)
      case Some(id) =>
        var key := KeyOf(id);
        var r1 := HSet(s.records, key, TitleField, title.value);
        var r2 := HSet(r1, key, DescriptionField, description.value);
        var r3 := HSet(r2, key, CreatedAtField, now);
        var r4 := HSet(r3, key, StatusField, Pending);
        (Store(r4, id), Created(id))
  }

  // ------------------------------------------------------------------ edit

  datatype EditOutcome = Updated | EditNotFound | InvalidField | InvalidStatus | NoValue

  /** The checks of an edit once the task is known to exist: the field must be
      one of the editable ones, a status must be one of `STATUS_VALIDOS`, and
      the value must be there for `HSET` to accept it. */
  function CheckEdit(field: Option<string>, value: Option<string>): (r: EditOutcome)
    ensures r == InvalidField <==> !(field.Some? && field.value in EditableFields)
    ensures r == InvalidStatus <==> field == Some(StatusField) && !(value.Some? && value.value in StatusValues)
    ensures r == Updated <==>
      field.Some? && field.value in EditableFields && value.Some? &&
      (field.value == StatusField ==> value.value in StatusValues)
    ensures r != EditNotFound
  {
    if field.None? || field.value !in EditableFields then InvalidField
    else if field.value == StatusField && (value.None? || value.value !in StatusValues) then InvalidStatus
    else if value.None? then NoValue
    else Updated
  }

  /** The POST branch of `editar_tarefa`: existence first, then the field and
      value checks, then one `HSET`. */
  function EditStep(s: Store, id: nat, field: Option<string>, value: Option<string>): (Store, EditOutcome)
  {
    var key := KeyOf(id);
    if key !in s.records then (s, EditNotFound)
    else
      var check := CheckEdit(field, value);
      if check != Updated then (s, check)
      else (Store(HSet(s.records, key, field.value, value.value), s.counter), Updated)
  }

  // ---------------------------------------------------------------- delete

  datatype DeleteOutcome = Deleted | DeleteNotFound

  /** `deletar_tarefa`: remove the whole hash when the key exists. */
  function DeleteStep(s: Store, id: nat): (Store, DeleteOutcome)
  {
    var key := KeyOf(id);
    if key in s.records then (Store(s.records - {key}, s.counter), Deleted)
    else (s, DeleteNotFound)
  }

  // ------------------------------------------------------------------ list

  /** The keys the scan `tarefa:*` enumerates. */
  function TaskKeySet(records: map<string, Record>): set<string> {
    set k | k in records && IsTaskKey(k)
  }

  /** The entry the listing builds for one key: all fields of its hash, with
      `id` set to the text after the ':' of the key. */
  function EntryOf(key: string, rec: Record): (e: Record)
    requires IsTaskKey(key)
    ensures e.Keys == rec.Keys + {IdField} && e[IdField] == ListedId(key)
    ensures forall f :: f in rec && f != IdField ==> e[f] == rec[f]
  {
    rec[IdField := ListedId(key)]
  }

  ghost predicate Distinct(ks: seq<string>) {
    forall i, j :: 0 <= i < j < |ks| ==> ks[i] != ks[j]
  }

  /** What `SCAN` with the pattern `tarefa:*` may return while nobody writes
      to the table: every task key at least once and nothing else, in any
      order.  A key may come back more than once (the store may rehash its
      key table during the scan). */
  ghost predicate ScanCovers(records: map<string, Record>, scan: seq<string>) {
    forall k :: k in scan <==> k in TaskKeySet(records)
  }

  /** `entries` is what the listing loop builds from the keys `scan`
      returned: one entry per key returned, in the scan's order. */
  ghost predicate IsListing(records: map<string, Record>, entries: seq<Record>, scan: seq<string>) {
    && |entries| == |scan|
    && (forall i :: 0 <= i < |scan| ==>
          (scan[i] in records && IsTaskKey(scan[i]) && entries[i] == EntryOf(scan[i], records[scan[i]])))
  }

  /** Every task is listed: each `tarefa:` key has an entry built from its
      own hash. */
  lemma ListingCoversTasks(records: map<string, Record>, entries: seq<Record>, scan: seq<string>, k: string)
    requires ScanCovers(records, scan) && IsListing(records, entries, scan)
    requires k in TaskKeySet(records)
    ensures exists i :: 0 <= i < |scan| && scan[i] == k && entries[i] == EntryOf(k, records[k])
  {
    var i :| 0 <= i < |scan| && scan[i] == k;
  }

  /** A sequence without repetitions has as many elements as its set. */
  lemma {:induction false} DistinctCardinality(ks: seq<string>)
    requires Distinct(ks)
    ensures |set k | k in ks| == |ks|
    decreases |ks|
  {
    if |ks| > 0 {
      var tail := ks[1..];
      DistinctCardinality(tail);
      assert (set k | k in ks) == (set k | k in tail) + {ks[0]};
    }
  }

  /** When the scan returns no key twice, the listing has exactly one entry
      per `tarefa:` key. */
  lemma ListingSize(records: map<string, Record>, entries: seq<Record>, scan: seq<string>)
    requires ScanCovers(records, scan) && Distinct(scan) && IsListing(records, entries, scan)
    ensures |entries| == |TaskKeySet(records)|
  {
    DistinctCardinality(scan);
    assert (set k | k in scan) == TaskKeySet(records);
  }

  // ------------------------------------------------------------ invariants

  /** Every `tarefa:<n>` key in the table has an id the counter has issued. */
  ghost predicate IdsIssued(s: Store) {
    forall n: nat :: KeyOf(n) in s.records ==> n <= s.counter
  }

  /** Every stored status is one of `STATUS_VALIDOS`. */
  ghost predicate StatusesValid(s: Store) {
    forall k :: k in s.records && StatusField in s.records[k] ==> s.records[k][StatusField] in StatusValues
  }

  /** Redis holds no empty hash: a hash without fields does not exist. */
  ghost predicate NoEmptyHash(s: Store) {
    forall k :: k in s.records ==> s.records[k] != map[]
  }

  /** Every task record holds the four fields a create writes. */
  ghost predicate Complete(s: Store) {
    forall k :: k in s.records && IsTaskKey(k) ==>
      TitleField in s.records[k] && DescriptionField in s.records[k] &&
      CreatedAtField in s.records[k] && StatusField in s.records[k]
  }

  /** The state the application keeps when it is the only writer. */

  ghost predicate Valid(s: Store) {
    s.counter <= MaxCounter && IdsIssued(s) && StatusesValid(s) && NoEmptyHash(s) && Complete(s)
  }

  // ---------------------------------------------------------------- lemmas

  /** A create without a title or description is rejected and consumes no id;
      otherwise it takes the id after the counter, and a failure of `INCR` is
      the only other way it writes nothing. */
  lemma CreateOutcomes(s: Store, title: Option<string>, description: Option<string>, now: string)
    ensures var (t, out) := CreateStep(s, title, description, now);
      && (out == MissingInput <==> !Present(title) || !Present(description))
      && (out == CounterOverflow <==> Present(title) && Present(description) && s.counter >= MaxCounter)
      && (!out.Created? ==> t == s)
      && (out.Created? ==> out.id == s.counter + 1 && t.counter == out.id)
  {
  }

  /** A successful create writes `titulo`, `descricao`, `data_criacao` and
      `status` = `Pendente` under `tarefa:<id>` and touches no other key. */
  lemma CreateWrites(s: Store, title: Option<string>, description: Option<string>, now: string)
    requires Present(title) && Present(description) && s.counter < MaxCounter
    ensures var (t, out) := CreateStep(s, title, description, now);
      var key := KeyOf(out.id);
      && t.records.Keys == s.records.Keys + {key}
      && (forall k :: k in s.records && k != key ==> t.records[k] == s.records[k])
      && t.records[key][TitleField] == title.value
      && t.records[key][DescriptionField] == description.value
      && t.records[key][CreatedAtField] == now
      && t.records[key][StatusField] == Pending
  {
  }

  /** When every key carries an issued id, the key of a new id is absent
      before the create, so the new record holds exactly the four fields. */
  lemma CreateWritesFreshRecord(s: Store, title: Option<string>, description: Option<string>, now: string)
    requires IdsIssued(s)
    requires Present(title) && Present(description) && s.counter < MaxCounter
    ensures var (t, out) := CreateStep(s, title, description, now);
      && KeyOf(out.id) !in s.records
      && t.records == s.records[KeyOf(out.id) := map[
           TitleField := title.value, DescriptionField := description.value,
           CreatedAtField := now, StatusField := Pending]]
  {
    var (t, out) := CreateStep(s, title, description, now);
    CreateWrites(s, title, description, now);
    var key := KeyOf(out.id);
    assert key !in s.records;
    var want := map[TitleField := title.value, DescriptionField := description.value,
                    CreatedAtField := now, StatusField := Pending];
    assert t.records[key] == want;
    assert t.records == s.records[key := want];
  }

  /** Edit reports a missing task before looking at the field or the value, and
      a rejected edit changes nothing. */
  lemma EditRejections(s: Store, id: nat, field: Option<string>, value: Option<string>)
    ensures var (t, out) := EditStep(s, id, field, value);
      && (out == EditNotFound <==> KeyOf(id) !in s.records)
      && (KeyOf(id) in s.records ==> out == CheckEdit(field, value))
      && (out != Updated ==> t == s)
  {
  }

  /** A successful edit writes the one field it names, in the one record it
      names, and nothing else; the counter, the other records, the other
      fields and in particular `data_criacao` keep their values. */
  lemma EditFrame(s: Store, id: nat, field: Option<string>, value: Option<string>)
    requires EditStep(s, id, field, value).1 == Updated
    ensures var t := EditStep(s, id, field, value).0;
      var key := KeyOf(id);
      && field.Some? && field.value in EditableFields && value.Some?
      && t.counter == s.counter
      && t.records.Keys == s.records.Keys
      && (forall k :: k in s.records && k != key ==> t.records[k] == s.records[k])
      && t.records[key].Keys == s.records[key].Keys + {field.value}
      && t.records[key][field.value] == value.value
      && (forall f :: f in s.records[key] && f != field.value ==> t.records[key][f] == s.records[key][f])
      && (CreatedAtField in s.records[key] ==> t.records[key][CreatedAtField] == s.records[key][CreatedAtField])
  {
  }

  /** No order of statuses is enforced: an existing task can be moved to any
      status of `STATUS_VALIDOS`, whatever its current one. */
  lemma AnyStatusReachable(s: Store, id: nat, status: string)
    requires KeyOf(id) in s.records && status in StatusValues
    ensures var (t, out) := EditStep(s, id, Some(StatusField), Some(status));
      out == Updated && t.records[KeyOf(id)][StatusField] == status
  {
  }

  /** Unlike creation, an edit accepts an empty title or description. */
  lemma EditAcceptsEmptyText(s: Store, id: nat, field: string)
    requires KeyOf(id) in s.records && (field == TitleField || field == DescriptionField)
    ensures var (t, out) := EditStep(s, id, Some(field), Some(""));
      out == Updated && t.records[KeyOf(id)][field] == ""
  {
  }

  /** Delete removes exactly the task's key when it exists and otherwise
      reports not-found and changes nothing. */
  lemma DeleteOutcomes(s: Store, id: nat)
    ensures var (t, out) := DeleteStep(s, id);
      && (out == Deleted <==> KeyOf(id) in s.records)
      && KeyOf(id) !in t.records
      && t.records.Keys == s.records.Keys - {KeyOf(id)}
      && (forall k :: k in t.records ==> t.records[k] == s.records[k])
      && t.counter == s.counter
      && (out == DeleteNotFound ==> t == s)
  {
  }

  /** After a delete the task is gone for every later request: an edit and a
      second delete both report not-found, and the scan no longer sees it. */
  lemma DeleteThenNotFound(s: Store, id: nat, field: Option<string>, value: Option<string>)
    ensures var t := DeleteStep(s, id).0;
      && EditStep(t, id, field, value) == (t, EditNotFound)
      && DeleteStep(t, id) == (t, DeleteNotFound)
      && KeyOf(id) !in TaskKeySet(t.records)
  {
  }

  /** A created task is in the listing, under the id it was created with. */
  lemma CreateThenListed(s: Store, title: Option<string>, description: Option<string>, now: string)
    requires Present(title) && Present(description) && s.counter < MaxCounter
    ensures var (t, out) := CreateStep(s, title, description, now);
      var key := KeyOf(out.id);
      && key in TaskKeySet(t.records)
      && EntryOf(key, t.records[key])[IdField] == Decimal(out.id)
      && ParseDecimal(EntryOf(key, t.records[key])[IdField]) == Some(out.id)
      && EntryOf(key, t.records[key])[StatusField] == Pending
  {
    var (t, out) := CreateStep(s, title, description, now);
    ListedIdOfKey(out.id);
  }

  /** Adding the four-field record of the next id to a valid table, and
      moving the counter to that id, gives a valid table. */
  lemma AddRecordKeepsValid(s: Store, id: nat, rec: Record)
    requires Valid(s) && id == s.counter + 1 && id <= MaxCounter
    requires TitleField in rec && DescriptionField in rec && CreatedAtField in rec
    requires StatusField in rec && rec[StatusField] in StatusValues
    ensures Valid(Store(s.records[KeyOf(id) := rec], id))
  {
    var t := Store(s.records[KeyOf(id) := rec], id);
    forall n: nat | KeyOf(n) in t.records
      ensures n <= t.counter
    {
      if KeyOf(n) == KeyOf(id) {
        KeyOfInjective(n, id);
      } else {
        assert KeyOf(n) in s.records;
      }
    }
  }

  lemma CreatePreservesValid(s: Store, title: Option<string>, description: Option<string>, now: string)
    requires Valid(s)
    ensures Valid(CreateStep(s, title, description, now).0)
  {
    var (t, out) := CreateStep(s, title, description, now);
    if out.Created? {
      CreateWritesFreshRecord(s, title, description, now);
      var rec := map[TitleField := title.value, DescriptionField := description.value,
                     CreatedAtField := now, StatusField := Pending];
      AddRecordKeepsValid(s, out.id, rec);
    }
  }

  lemma EditPreservesValid(s: Store, id: nat, field: Option<string>, value: Option<string>)
    requires Valid(s)
    ensures Valid(EditStep(s, id, field, value).0)
  {
  }

  lemma DeletePreservesValid(s: Store, id: nat)
    requires Valid(s)
    ensures Valid(DeleteStep(s, id).0)
  {
  }
}
