# Task table of the Flask/Redis to-do application

The application keeps to-do tasks in Redis. Each task is a hash under the key
`tarefa:<id>`. The hash holds the fields `titulo`, `descricao`, `data_criacao`
and `status`, and the status is one of `STATUS_VALIDOS` = `Pendente`,
`Em Progresso`, `Concluída`. Ids come from `INCR` on the counter
`contador_tarefas`. The request handlers do four things:

- `criar_tarefa` rejects a missing or empty title or description. Otherwise it
  takes the next id and writes the four fields, with status `Pendente`.
- `index` scans the `tarefa:*` keys and lists every hash. It adds an `id`
  taken from the key with `split(':')[1]`.
- `editar_tarefa` (POST) checks that the task exists. It then accepts only the
  fields `titulo`, `descricao` and `status`, and only a status from the
  enumeration. Finally it writes that one field.
- `deletar_tarefa` removes the whole hash when the key exists.

The model replaces Redis with an in-memory value: a map from key to hash
(field name to text) plus the counter.

- `keys.dfy` (module `TaskKeys`) covers the key format. It defines the decimal
  text of an id, Python's `str.split`, the `<int:...>` reading of an id, and
  proofs that these fit together.
- `model.dfy` (module `TaskModel`) holds the store as a value. It has the
  `HSET` and `INCR` primitives, one function per request (`CreateStep`,
  `EditStep`, `DeleteStep`), the listing relation `IsListing`, the invariants,
  and the lemmas stating what each request promises.
- `repository.dfy` (module `TaskRepository`) holds the class `TaskStore`. Its
  fields `records: map<string, map<string, string>>` and `counter: nat` are
  the database. Its methods perform the handlers' store writes one at a time,
  in the handlers' order. Each method is proved to reach the state and the
  outcome of the matching step function.
- `history.dfy` (module `TaskHistory`) runs sequences of requests. It proves
  that issued ids strictly increase and are never reused, even after a
  delete, and that the invariants hold over any run.

Form fields are `Option<string>`, because `request.form.get` gives `None` for
a missing field. A form field passes Python's truthiness test (not `None`,
not empty) exactly when it is `Present`. The
creation time is an opaque text parameter. An edit of `titulo` or `descricao`
without a `valor` reaches `HSET` with `None`, which the Redis client refuses
before writing anything; the model gives that edit the outcome `NoValue` and
leaves the store unchanged.

Some behaviour of the code is worth stating plainly:

- Keys are `tarefa:<id>`, and the statuses are the Portuguese names above.
- The listing takes every `tarefa:*` hash as it is, with whatever fields it
  has (`EntryOf`). It neither checks nor skips incomplete records; the
  requests of the application never leave one behind (`Complete`, part of
  `Valid`).
- An edit may set `titulo` or `descricao` to the empty text
  (`EditAcceptsEmptyText`). Only creation requires them to be non-empty.
- Creation writes the four fields with four separate `HSET`s.
- The only read of a single task is the GET branch of `editar_tarefa` (see
  Left out).
- The listing loop goes through the keys that `SCAN` returned. `SCAN` returns
  every matching key at least once, in any order, and may return a key more
  than once. The loop does not remove repeats, so a task can be listed twice.
  `ListTasks` takes the keys `SCAN` returned as a parameter (`ScanCovers`
  states what the store promises about them). It lists one entry per key
  returned and every task at least once; exactly one entry per task holds
  when the scan returned no key twice (`ListingSize`).

## Model

| member | source | states |
|---|---|---|
| TaskKeys.Decimal | Exercicio_CRUD_Redis/app.py:69 | the id in `tarefa:{id}` is written as non-empty decimal digits, with a leading zero only for 0 |
| TaskKeys.ParseDecimal | Exercicio_CRUD_Redis/app.py:82 | an id text read by the `<int:id_tarefa>` route is accepted exactly when it is a non-empty run of digits |
| TaskKeys.ParseDecimalOfDecimal | Exercicio_CRUD_Redis/app.py:69 | reading back the decimal text of an id gives the id |
| TaskKeys.KeyOf | Exercicio_CRUD_Redis/app.py:69 | the key of task `id` starts with `tarefa:` (so the scan finds it) and continues with the decimal id |
| TaskKeys.KeyOfInjective | Exercicio_CRUD_Redis/app.py:68-69 | distinct ids give distinct keys |
| TaskKeys.Split | Exercicio_CRUD_Redis/app.py:49 | `split(':')` gives at least one piece, no piece holds ':', and joining the pieces with ':' gives back the key |
| TaskKeys.ListedId | Exercicio_CRUD_Redis/app.py:49 | `key.split(':')[1]` is the text after the first ':' up to the next ':' or the end of the key |
| TaskKeys.ListedIdOfKey | Exercicio_CRUD_Redis/app.py:47-50 | the id listed for the key `tarefa:<n>` is the decimal text of `n`, and it reads back as `n` and as the same key: the listing round-trips the key format of creation |
| TaskModel.Present | Exercicio_CRUD_Redis/app.py:64 | a form field passes `if not titulo or not descricao` exactly when it is there and not the empty text |
| TaskModel.HSet | Exercicio_CRUD_Redis/app.py:101 | `HSET` sets one field of one hash and creates the hash if absent; every other key and field is unchanged |
| TaskModel.Incr | Exercicio_CRUD_Redis/app.py:12-14 | `INCR` gives the counter plus one, and fails only at the 64-bit maximum |
| TaskModel.CreateStep | Exercicio_CRUD_Redis/app.py:60-75 | the input check, the `INCR` and the four `HSET`s of `tarefa:<id>` as one function of the store, with the outcome: created with its id, missing input, or counter overflow |
| TaskModel.CheckEdit | Exercicio_CRUD_Redis/app.py:96-101 | a field outside `titulo`/`descricao`/`status` is rejected first, then a status outside `STATUS_VALIDOS`; the edit goes ahead exactly when the field is editable, the value is present and a status value is valid |
| TaskModel.EditStep | Exercicio_CRUD_Redis/app.py:85-101 | the existence check, then the field and value checks, then the one `HSET`, as one function of the store, with the outcome |
| TaskModel.DeleteStep | Exercicio_CRUD_Redis/app.py:121-126 | the existence check and the removal of the whole hash, as one function of the store, with the outcome |
| TaskModel.ScanCovers | Exercicio_CRUD_Redis/app.py:47 | what `scan_iter('tarefa:*')` may return: every `tarefa:` key at least once and no other key, in any order, repeats allowed |
| TaskModel.EntryOf | Exercicio_CRUD_Redis/app.py:48-49 | a listed entry has every field of the hash, and its `id` is the text after the ':' of the key |
| TaskModel.ListingCoversTasks | Exercicio_CRUD_Redis/app.py:46-50 | every `tarefa:` key has an entry in the listing, built from its own hash |
| TaskModel.ListingSize | Exercicio_CRUD_Redis/app.py:46-50 | when the scan returned no key twice, the listing has exactly one entry per `tarefa:` key |
| TaskModel.CreateOutcomes | Exercicio_CRUD_Redis/app.py:64-68 | a missing or empty title or description is rejected and consumes no id; every rejected create leaves the store unchanged; a successful one takes id = counter + 1 and leaves the counter there |
| TaskModel.CreateWrites | Exercicio_CRUD_Redis/app.py:68-75 | a successful create sets `titulo` and `descricao` to the inputs, `data_criacao` to the time and `status` to `Pendente` under `tarefa:<id>`; no other key changes |
| TaskModel.CreateWritesFreshRecord | Exercicio_CRUD_Redis/app.py:68-75 | when every task key carries an issued id, a create writes to an absent key, and the new hash holds exactly the four fields |
| TaskModel.EditRejections | Exercicio_CRUD_Redis/app.py:88-99 | edit on an absent key reports not-found whatever the field and value; on an existing key the field and value checks decide; a rejected edit changes nothing |
| TaskModel.EditFrame | Exercicio_CRUD_Redis/app.py:96-101 | a successful edit writes only the named field of the named task; the counter, the other keys, the other fields and `data_criacao` are unchanged |
| TaskModel.AnyStatusReachable | Exercicio_CRUD_Redis/app.py:98-101 | any status of `STATUS_VALIDOS` may be written over any current status: no transition order is enforced |
| TaskModel.EditAcceptsEmptyText | Exercicio_CRUD_Redis/app.py:96-101 | an edit may set the title or description to the empty text, which creation refuses |
| TaskModel.DeleteOutcomes | Exercicio_CRUD_Redis/app.py:121-126 | delete reports success exactly when the key existed; afterwards the key is absent and every other record and the counter are unchanged; a not-found delete changes nothing |
| TaskModel.DeleteThenNotFound | Exercicio_CRUD_Redis/app.py:85-90 | after a delete, an edit of that id and a second delete both report not-found, and the scan no longer yields the key |
| TaskModel.CreateThenListed | Exercicio_CRUD_Redis/app.py:47-50 | a created task is in the listing with status `Pendente`, and its listed id reads back as the id it was created with |
| TaskModel.CreatePreservesValid | Exercicio_CRUD_Redis/app.py:68-75 | a create keeps every task key at an issued id, every status in `STATUS_VALIDOS`, every hash non-empty, as Redis requires, and every task record complete with `titulo`, `descricao`, `data_criacao` and `status` |
| TaskModel.AddRecordKeepsValid | Exercicio_CRUD_Redis/app.py:68-75 | storing a four-field record with a valid status under the key of the next id, and advancing the counter to it, keeps the table valid |
| TaskModel.EditPreservesValid | Exercicio_CRUD_Redis/app.py:96-101 | an edit keeps every status in `STATUS_VALIDOS`, every hash non-empty and every task record complete: it only overwrites one of the fields a create wrote |
| TaskModel.DeletePreservesValid | Exercicio_CRUD_Redis/app.py:121-123 | a delete keeps the table valid: ids issued, statuses in `STATUS_VALIDOS`, hashes non-empty, task records complete |
| TaskRepository.TaskStore.NextId | Exercicio_CRUD_Redis/app.py:12-14 | `gerar_id` advances the counter by one and returns the new value, and changes no hash |
| TaskRepository.TaskStore.SetField | Exercicio_CRUD_Redis/app.py:72 | one `HSET` on the database |
| TaskRepository.TaskStore.CreateTask | Exercicio_CRUD_Redis/app.py:60-78 | the check, the `INCR` and the four `HSET`s reach the state and outcome of `CreateStep`, and keep the table valid |
| TaskRepository.TaskStore.EditTask | Exercicio_CRUD_Redis/app.py:85-104 | the existence check, the field checks and the one `HSET` reach the state and outcome of `EditStep`, and keep the table valid |
| TaskRepository.TaskStore.DeleteTask | Exercicio_CRUD_Redis/app.py:121-128 | the existence check and the delete reach the state and outcome of `DeleteStep`, and keep the table valid |
| TaskRepository.TaskStore.ListTasks | Exercicio_CRUD_Redis/app.py:45-51 | the loop over the keys `SCAN` returned gives one entry per key returned, in that order, each the key's hash with its `id`; every task key is listed at least once, and exactly once when the scan repeated no key |
| TaskHistory.ApplyCounter | Exercicio_CRUD_Redis/app.py:68 | no request lowers the counter; an issued id is the old counter plus one and becomes the counter |
| TaskHistory.IssuedIdsIncrease | Exercicio_CRUD_Redis/app.py:12-14 | over any sequence of creates, edits and deletes, the issued ids strictly increase and lie between the starting and the final counter |
| TaskHistory.IdsNeverReused | Exercicio_CRUD_Redis/app.py:68-69 | no id, and so no key, is issued twice, even after a delete; no issued id names a task present before the run |
| TaskHistory.RunPreservesValid | Exercicio_CRUD_Redis/app.py:96-99 | from a valid table, any sequence of requests keeps every status in `STATUS_VALIDOS`, every key at an issued id, every hash non-empty and every task record holding `titulo`, `descricao`, `data_criacao` and `status` |
| TaskHistory.Scenario | Exercicio_CRUD_Redis/app.py:64-75 | from an empty table, a create gets id 1 and status `Pendente`, a status edit to `Em Progresso` succeeds, and a delete leaves an empty table with the counter at 1 |

## Left out

- Flask routing, templates, `flash` messages and `redirect` (app.py lines 1-6, 36-43, 77-80, 116, 130-131) are presentation. Each handler's result is an outcome value instead.
- The Redis connection is not modelled: setup, `ping`, timeouts and connection errors (lines 9, 16-34), and the dereference of a missing connection at line 88. The model always has a working store.
- The generic exception fallback of the listing (lines 53-55) is not modelled. The model's store holds only hashes, so `HGETALL` cannot fail.
- `datetime.now().strftime` (line 70) is not modelled. The creation time is an opaque text parameter.
- The GET branch of `editar_tarefa` (lines 107-116) is not modelled. It looks up byte keys on a connection that returns text, so it is a decoding artefact that only feeds a template.
- Concurrency is not modelled: requests run one at a time. The atomicity of `INCR` between concurrent creates is not modelled either.
- `scan_iter` is not modelled as a cursor over the key table. Its answer is a parameter of `ListTasks`, constrained only by what `SCAN` promises: every matching key at least once, nothing else, in any order, repeats allowed.
- The counter key `contador_tarefas` is a separate number, not an entry of the map of hashes. It does not match `tarefa:*`, so it never shows up in the listing.
- Flask's integer converter is modelled only as `ParseDecimal` on decimal digits. Route ids in `EditTask` and `DeleteTask` are taken as natural numbers.
