/** The request handlers of the application, as methods of one object that
    stands for the Redis database: its hashes and its `contador_tarefas`
    counter.  Each method performs the store writes of its handler in the
    handler's order and is proved to reach the state, and give the outcome,
    that module TaskModel describes. */
module TaskRepository {
  import opened TaskKeys
  import opened TaskModel

  class TaskStore {
    /** The Redis hashes, by key. */
    var records: map<string, Record>
    /** The value of `contador_tarefas` (0 while the key is absent). */
    var counter: nat

    function State(): Store
      reads this
    {
      Store(records, counter)
    }

    /** An empty database. */
    constructor ()
      ensures records == map[] && counter == 0
      ensures Valid(State())
    {
      records := map[];
      counter := 0;
    }

    /** `gerar_id`: `INCR contador_tarefas`, giving the new value. */
    method NextId() returns (id: Option<nat>)
      modifies this
      ensures id == Incr(old(counter))
      ensures records == old(records)
      ensures counter == if id.Some? then id.value else old(counter)
    {
      if counter < MaxCounter {
        counter := counter + 1;
        id := Some(counter);
      } else {
        id := None;
      }
    }

    /** `HSET key field value`. */
    method SetField(key: string, field: string, value: string)
      modifies this
      ensures records == HSet(old(records), key, field, value)
      ensures counter == old(counter)
    {
      records := records[key := FieldsAt(records, key)[field := value]];
    }

    /** `criar_tarefa` on a POST with the form fields `titulo` and `descricao`
        and the creation time `now`, already formatted. */
    method CreateTask(title: Option<string>, description: Option<string>, now: string) returns (outcome: CreateOutcome)
      modifies this
      ensures (State(), outcome) == CreateStep(old(State()), title, description, now)
      ensures Valid(old(State())) ==> Valid(State())
    {
      ghost var before := State();
      if !Present(title) || !Present(description) {
        return MissingInput;
      }
      var id := NextId();
      if id.None? {
        return CounterOverflow;
      }
      var key := KeyOf(id.value);
      SetField(key, TitleField, title.value);
      SetField(key, DescriptionField, description.value);
      SetField(key, CreatedAtField, now);
      SetField(key, StatusField, Pending);
      outcome := Created(id.value);
      if Valid(before) {
        CreatePreservesValid(before, title, description, now);
      }
    }

    /** The POST branch of `editar_tarefa` for task `id`, with the form fields
        `campo` and `valor`. */
    method EditTask(id: nat, field: Option<string>, value: Option<string>) returns (outcome: EditOutcome)
      modifies this
      ensures (State(), outcome) == EditStep(old(State()), id, field, value)
      ensures Valid(old(State())) ==> Valid(State())
    {
      ghost var before := State();
      var key := KeyOf(id);
      if key !in records {
        return EditNotFound;
      }
      outcome := CheckEdit(field, value);
      if outcome == Updated {
        SetField(key, field.value, value.value);
      }
      if Valid(before) {
        EditPreservesValid(before, id, field, value);
      }
    }

    /** `deletar_tarefa` for task `id`. */
    method DeleteTask(id: nat) returns (outcome: DeleteOutcome)
      modifies this
      ensures (State(), outcome) == DeleteStep(old(State()), id)
      ensures Valid(old(State())) ==> Valid(State())
    {
      ghost var before := State();
      var key := KeyOf(id);
      if key in records {
        records := records - {key};
        outcome := Deleted;
      } else {
        outcome := DeleteNotFound;
      }
      if Valid(before) {
        DeletePreservesValid(before, id);
      }
    }

    /** `index`: go through the keys that `SCAN tarefa:*` returned, in the
        order it returned them, and append, for each, its hash with `id` set
        from the key.  `scan` is that answer of the store. */
    method ListTasks(scan: seq<string>) returns (entries: seq<Record>)
      requires ScanCovers(records, scan)
      ensures IsListing(records, entries, scan)
      ensures forall k :: k in TaskKeySet(records) ==>
        exists i :: 0 <= i < |scan| && scan[i] == k && entries[i] == EntryOf(k, records[k])
      ensures Distinct(scan) ==> |entries| == |TaskKeySet(records)|
    {
      entries := [];
      for i := 0 to |scan|
        invariant |entries| == i
        invariant forall j :: 0 <= j < i ==>
          (scan[j] in records && IsTaskKey(scan[j]) && entries[j] == EntryOf(scan[j], records[scan[j]]))
      {
        var key := scan[i];
        assert key in TaskKeySet(records);
        entries := entries + [EntryOf(key, records[key])];
      }
      forall k | k in TaskKeySet(records)
        ensures exists i :: 0 <= i < |scan| && scan[i] == k && entries[i] == EntryOf(k, records[k])
      {
        ListingCoversTasks(records, entries, scan, k);
      }
      if Distinct(scan) {
        ListingSize(records, entries, scan);
      }
    }
  }
}
