# Consultorio médico: the appointment ledger

This project models, in Dafny, the appointment ledger of a small medical-office
program. The ledger is the `Turnos` collection of a document store. Each
document records one booking: the patient's `nombre`, `apellido` and `dni`, and
the appointment `fecha`. The office runs three operations on it:

- **booking** (`asignar_turno`): look the `fecha` up. If some document is
  already booked for it, report that it is occupied and change nothing.
  Otherwise insert a new document with the four fields.
- **cancelling** (`cancelar_turno`): look the `fecha` up. If a document is
  booked for it, delete that document. Otherwise report that none was found.
- **listing** (`mostrar_turnos_disponibles`): every stored booking, ascending
  by `fecha`.

The collection is the class `Consultorio.Turnos`. Its field `docs` holds the
documents in the store's natural order, taken to be insertion order.
`FindOne` and `DeleteOne` give the meaning of the two exact-match store calls.
`find_one` returns the first document in natural order whose `fecha` matches.
`delete_one` removes that same document. `insert_one` appends. Sorting on the
string field `fecha` is the lexicographic order by code point, defined in
`StringOrder.LexLe`. Dafny's own `<` on strings means "proper prefix", so it
cannot serve as this order.

What is proved:

- The ledger invariant is at most one booking per `fecha` (`UniqueFechas`).
  Booking and cancelling both preserve it, with one operation at a time.
  Booking cannot break it, because it inserts only when the `fecha` is free.
- Each operation has an exact frame. A booking either appends exactly the new
  document or leaves the table untouched, and the outcome says which. A
  cancellation either removes exactly the first matching document, keeping
  every other document and the order, or leaves the table untouched.
- Booking a free `fecha` and then cancelling it restores the table exactly.
- The listing is a permutation of the stored documents and is sorted by
  `fecha`. Under the invariant only one sorted arrangement exists, so the
  listing does not depend on the order in which documents were stored.

Every stored record has all four fields by construction: `Turno` is a record
type with exactly those four fields.

## Model

| member | source | states |
|---|---|---|
| `Consultorio.Turnos.constructor` | Consultorio_Medico.py:4-6 | the handle is on a collection holding the given documents, which need not satisfy the invariant |
| `Consultorio.FindOne` | Consultorio_Medico.py:10 | the lookup finds nothing exactly when no document has that `fecha`; otherwise it finds the first document in natural order with that `fecha` |
| `Consultorio.DeleteOne` | Consultorio_Medico.py:21 | deletion by `fecha` removes exactly the first matching document and keeps the rest in order; it changes nothing when none matches; no document with another `fecha` is affected |
| `Consultorio.Turnos.Book` | Consultorio_Medico.py:8-15 | the outcome is "already occupied" exactly when some document has the `fecha`, and the table is then unchanged; otherwise exactly the new `{nombre, apellido, dni, fecha}` document is appended; the invariant is preserved |
| `Consultorio.Turnos.Cancel` | Consultorio_Medico.py:17-24 | the outcome is "cancelled" exactly when some document has the `fecha`, and the table becomes the deletion of it; "not found" leaves the table unchanged; on a valid table no booking for that `fecha` remains and the invariant is preserved |
| `Consultorio.Turnos.List` | Consultorio_Medico.py:26-31 | the listing is sorted ascending by `fecha` and is a permutation of the stored documents, with nothing added or dropped |
| `Consultorio.AppendKeepsUnique` | Consultorio_Medico.py:10-14 | appending a booking keeps at most one booking per `fecha` if and only if the table had that property and the `fecha` was free |
| `Consultorio.CancelLeavesFechaFree` | Consultorio_Medico.py:19-22 | on a table with at most one booking per `fecha`, cancelling keeps that property and leaves no booking for the cancelled `fecha` |
| `Consultorio.BookThenCancelRestores` | Consultorio_Medico.py:13-21 | booking a free `fecha` and then cancelling it gives back the original table, documents and order alike |
| `Consultorio.InsertByFecha` | Consultorio_Medico.py:28 | placing one document into a sorted listing keeps it sorted by `fecha` and adds exactly that document |
| `Consultorio.SortedHeadsAgree` | Consultorio_Medico.py:28 | two sorted arrangements of the same bookings, with at most one per `fecha`, start with the same booking |
| `Consultorio.SortedListingIsUnique` | Consultorio_Medico.py:28 | with at most one booking per `fecha`, any two sorted permutations of the table are equal, so the listing is determined by the table's contents |
| `StringOrder.LexLeReflexive` | Consultorio_Medico.py:28 | every `fecha` sorts no later than itself |
| `StringOrder.LexLeTotal` | Consultorio_Medico.py:28 | any two `fecha` strings are comparable by the sort key |
| `StringOrder.LexLeTransitive` | Consultorio_Medico.py:28 | the sort order on `fecha` is transitive |
| `StringOrder.LexLeAntisymmetric` | Consultorio_Medico.py:28 | two `fecha` strings that each sort no later than the other are equal |

## Left out

- The store client and its connection (Consultorio_Medico.py:1, 4-6). These are network I/O to a database server. The collection is an in-memory table held by `Consultorio.Turnos`, and the constructor takes its initial contents.
- The `_id` field that the store adds to every inserted document. No operation here reads it.
- The printed messages (Consultorio_Medico.py:11, 15, 22, 24, 29, 31). They become the outcome values `BookOutcome` and `CancelOutcome`, and the printing loop over the cursor becomes the sequence that `List` returns.
- The store's collation and its handling of values other than strings. The sort key is lexicographic order on characters by code point. This agrees with byte-wise comparison of UTF-8 strings. All four fields are taken to be strings, as typed by the operator. Their callers are not part of this model.
- Natural order. The store does not promise any natural order. The model takes insertion order, and this matters only for `find_one` and `delete_one` on a table that already holds two bookings for one `fecha`. On a table that keeps the invariant, the listing is the same whatever the order (`SortedListingIsUnique`).
- Concurrency. Operations are assumed to run one at a time. At Consultorio_Medico.py:10 and :14 the lookup and the insert are two separate store calls, with no unique index on `fecha` behind them. So the check-then-insert is not atomic: two clients booking the same `fecha` at once can both insert, and uniqueness then breaks. The model does not capture that interleaving.
- Malformed documents. Documents are assumed to carry the four string fields. `Turno` cannot represent a stored document that lacks `nombre`, `apellido` or `fecha`. In the source, listing such a document raises KeyError at Consultorio_Medico.py:31, while `List` always returns.
- Store errors. When the server cannot be reached, the store calls at Consultorio_Medico.py:10, 14, 19 and 21 raise. So does the listing's query: it is built at :28 and sent only when the loop at :30 starts, after :29 has printed its header. The client connects lazily, so line 4 does not fail. These errors are not modelled: `Book`, `Cancel` and `List` always return.
- Only the three functions of Consultorio_Medico.py are modelled.
