/** The appointment ledger of the medical office: the `Turnos` collection of
    booking documents and the three operations the office runs on it —
    booking a `fecha`, cancelling it, and listing every booking by `fecha`.

    The collection is a table of documents in the store's natural order
    (insertion order). Lookups and deletions by `fecha` are exact-match
    filters that act on the first matching document in that order. */
module Consultorio {
  import opened StringOrder

  /** One booking document: patient name, surname, identity number and the
      appointment `fecha`, all as the strings the office typed in. */
  datatype Turno = Turno(nombre: string, apellido: string, dni: string, fecha: string)

  datatype Option<T> = None | Some(value: T)

  /** What booking reports instead of its printed message. */
  datatype BookOutcome = Assigned | AlreadyOccupied

  /** What cancelling reports instead of its printed message. */
  datatype CancelOutcome = Cancelled | NotFound

  // ---------------------------------------------------------------------
  // The table and its invariant
  // ---------------------------------------------------------------------

  /** Some document of the table is booked for `fecha` (a match for the
      filter `{"fecha": fecha}`). */
  predicate HasFecha(t: seq<Turno>, fecha: string)
  {
    exists i :: 0 <= i < |t| && t[i].fecha == fecha
  }

  /** The ledger invariant: at most one booking per `fecha`. */
  predicate UniqueFechas(t: seq<Turno>)
  {
    forall i, j :: 0 <= i < j < |t| ==> t[i].fecha != t[j].fecha
  }

  /** `find_one({"fecha": fecha})`: the position of the first document, in
      natural order, booked for `fecha`, or None when there is none. */
  function FindOne(t: seq<Turno>, fecha: string): (r: Option<nat>)
    ensures r.None? <==> !HasFecha(t, fecha)
    ensures r.Some? ==>
              r.value < |t| && t[r.value].fecha == fecha &&
              forall j :: 0 <= j < r.value ==> t[j].fecha != fecha
    decreases |t|
  {
    if |t| == 0 then None
    else if t[0].fecha == fecha then Some(0)
    else
      match FindOne(t[1..], fecha)
      case None =>
        assert forall i :: 1 <= i < |t| ==> t[i] == t[1..][i - 1];
        None
      case Some(k) => Some(k + 1)
  }

  /** `delete_one({"fecha": fecha})`: the table without the first document
      booked for `fecha`; the table itself when there is none. */
  function DeleteOne(t: seq<Turno>, fecha: string): (r: seq<Turno>)
    ensures !HasFecha(t, fecha) ==> r == t
    ensures HasFecha(t, fecha) ==>
              exists k :: 0 <= k < |t| && t[k].fecha == fecha &&
                          (forall j :: 0 <= j < k ==> t[j].fecha != fecha) &&
                          r == t[..k] + t[k + 1..]
    ensures |r| == if HasFecha(t, fecha) then |t| - 1 else |t|
    ensures forall x: Turno :: x.fecha != fecha ==> multiset(r)[x] == multiset(t)[x]
  {
    match FindOne(t, fecha)
    case None => t
    case Some(k) =>
      assert t == t[..k] + [t[k]] + t[k + 1..];
      t[..k] + t[k + 1..]
  }

  // ---------------------------------------------------------------------
  // Properties of booking and cancelling on the table
  // ---------------------------------------------------------------------

  /** Appending a booking keeps the invariant exactly when its `fecha` was
      free — the check-then-insert discipline of booking. */
  lemma {:induction false} AppendKeepsUnique(t: seq<Turno>, x: Turno)
    ensures UniqueFechas(t + [x]) <==> UniqueFechas(t) && !HasFecha(t, x.fecha)
  {
    var u := t + [x];
    if UniqueFechas(u) {
      forall i, j | 0 <= i < j < |t| ensures t[i].fecha != t[j].fecha {
        assert u[i] == t[i] && u[j] == t[j];
      }
      forall i | 0 <= i < |t| ensures t[i].fecha != x.fecha {
        assert u[i] == t[i] && u[|t|] == x;
      }
    }
  }

  /** On a table that keeps the invariant, cancelling a `fecha` keeps the
      invariant and leaves no booking for that `fecha`. */
  lemma {:induction false} CancelLeavesFechaFree(t: seq<Turno>, fecha: string)
    requires UniqueFechas(t)
    ensures UniqueFechas(DeleteOne(t, fecha))
    ensures !HasFecha(DeleteOne(t, fecha), fecha)
  {
  }

  /** Booking a free `fecha` and then cancelling it gives back the table as
      it was, documents and order alike. */
  lemma {:induction false} BookThenCancelRestores(t: seq<Turno>, x: Turno)
    requires !HasFecha(t, x.fecha)
    ensures DeleteOne(t + [x], x.fecha) == t
  {
  }

  // ---------------------------------------------------------------------
  // The listing order
  // ---------------------------------------------------------------------

  /** Ascending by `fecha`, in lexicographic string order. */
  predicate SortedByFecha(s: seq<Turno>)
  {
    forall i, j :: 0 <= i < j < |s| ==> LexLe(s[i].fecha, s[j].fecha)
  }

  /** Every document of `s` is booked no earlier than `f`. */
  predicate AllFrom(s: seq<Turno>, f: string)
  {
    forall i :: 0 <= i < |s| ==> LexLe(f, s[i].fecha)
  }

  lemma AllFromPermutation(s: seq<Turno>, t: seq<Turno>, f: string)
    requires multiset(s) == multiset(t) && AllFrom(t, f)
    ensures AllFrom(s, f)
  {
    forall i | 0 <= i < |s| ensures LexLe(f, s[i].fecha) {
      assert s[i] in multiset(t);
      var j :| 0 <= j < |t| && t[j] == s[i];
    }
  }

  /** `x` placed into the sorted listing `s` after every booking with an
      earlier `fecha`: the listing stays sorted and gains exactly `x`. */
  function InsertByFecha(s: seq<Turno>, x: Turno): (r: seq<Turno>)
    requires SortedByFecha(s)
    ensures SortedByFecha(r)
    ensures multiset(r) == multiset(s) + multiset{x}
    decreases |s|
  {
    if |s| == 0 then [x]
    else if LexLe(x.fecha, s[0].fecha) then
      assert AllFrom(s, x.fecha) by {
        forall j | 0 < j < |s| ensures LexLe(x.fecha, s[j].fecha) {
          LexLeTransitive(x.fecha, s[0].fecha, s[j].fecha);
        }
      }
      [x] + s
    else
      var rest := InsertByFecha(s[1..], x);
      assert AllFrom(rest, s[0].fecha) by {
        LexLeTotal(x.fecha, s[0].fecha);
        assert AllFrom(s[1..] + [x], s[0].fecha);
        AllFromPermutation(rest, s[1..] + [x], s[0].fecha);
      }
      assert s == [s[0]] + s[1..];
      [s[0]] + rest
  }

  /** Two sorted arrangements of the same bookings, at most one per `fecha`,
      start with the same booking. */
  lemma SortedHeadsAgree(a: seq<Turno>, b: seq<Turno>)
    requires UniqueFechas(a)
    requires SortedByFecha(a) && SortedByFecha(b)
    requires multiset(a) == multiset(b) && |a| > 0
    ensures |b| > 0 && a[0] == b[0]
  {
    assert a[0] in multiset(b);
    var k :| 0 <= k < |b| && b[k] == a[0];
    assert b[0] in multiset(a);
    var m :| 0 <= m < |a| && a[m] == b[0];
    LexLeReflexive(a[0].fecha);
    LexLeReflexive(b[0].fecha);
    assert LexLe(a[0].fecha, a[m].fecha) && LexLe(b[0].fecha, b[k].fecha);
    LexLeAntisymmetric(a[0].fecha, b[0].fecha);
    assert m == 0;
  }

  /** With at most one booking per `fecha`, there is only one sorted
      arrangement of the table: the listing does not depend on the order in
      which the documents are stored. */
  lemma {:induction false} SortedListingIsUnique(a: seq<Turno>, b: seq<Turno>)
    requires UniqueFechas(a)
    requires SortedByFecha(a) && SortedByFecha(b)
    requires multiset(a) == multiset(b)
    ensures a == b
    decreases |a|
  {
    assert |a| == |multiset(a)| == |multiset(b)| == |b|;
    if |a| > 0 {
      SortedHeadsAgree(a, b);
      assert a == [a[0]] + a[1..] && b == [b[0]] + b[1..];
      assert multiset(a) == multiset{a[0]} + multiset(a[1..]);
      assert multiset(b) == multiset{a[0]} + multiset(b[1..]);
      assert multiset(a[1..]) == multiset(a) - multiset{a[0]} == multiset(b[1..]);
      SortedListingIsUnique(a[1..], b[1..]);
    }
  }

  // ---------------------------------------------------------------------
  // The collection
  // ---------------------------------------------------------------------

  /** The `Turnos` collection: its documents in natural order. */
  class Turnos {
    var docs: seq<Turno>

    /** At most one booking per `fecha`. */
    ghost predicate Valid()
      reads this
    {
      UniqueFechas(docs)
    }

    /** A handle on a collection that already holds `initial`. */
    constructor (initial: seq<Turno>)
      ensures docs == initial
    {
      docs := initial;
    }

    /** `asignar_turno`: book `fecha` for the patient unless some document is
        already booked for it. */
    method Book(nombre: string, apellido: string, dni: string, fecha: string)
      returns (outcome: BookOutcome)
      modifies this
      ensures outcome == AlreadyOccupied <==> HasFecha(old(docs), fecha)
      ensures outcome == AlreadyOccupied ==> docs == old(docs)
      ensures outcome == Assigned ==> docs == old(docs) + [Turno(nombre, apellido, dni, fecha)]
      ensures old(Valid()) ==> Valid()
    {
      var found := FindOne(docs, fecha);
      if found.Some? {
        outcome := AlreadyOccupied;
      } else {
        AppendKeepsUnique(docs, Turno(nombre, apellido, dni, fecha));
        docs := docs + [Turno(nombre, apellido, dni, fecha)];
        outcome := Assigned;
      }
    }

    /** `cancelar_turno`: remove the document booked for `fecha`, if any. */
    method Cancel(fecha: string) returns (outcome: CancelOutcome)
      modifies this
      ensures outcome == Cancelled <==> HasFecha(old(docs), fecha)
      ensures outcome == NotFound ==> docs == old(docs)
      ensures docs == DeleteOne(old(docs), fecha)
      ensures old(Valid()) ==> Valid() && !HasFecha(docs, fecha)
    {
      var found := FindOne(docs, fecha);
      if found.Some? {
        if Valid() {
          CancelLeavesFechaFree(docs, fecha);
        }
        docs := DeleteOne(docs, fecha);
        outcome := Cancelled;
      } else {
        outcome := NotFound;
      }
    }

    /** `mostrar_turnos_disponibles`: every stored booking, ascending by
        `fecha`. The store sorts the cursor; here each document is placed in
        turn into the listing built so far. */
    method List() returns (listing: seq<Turno>)
      ensures SortedByFecha(listing)
      ensures multiset(listing) == multiset(docs)
    {
      listing := [];
      var i := 0;
      while i < |docs|
        invariant 0 <= i <= |docs|
        invariant SortedByFecha(listing)
        invariant multiset(listing) == multiset(docs[..i])
      {
        listing := InsertByFecha(listing, docs[i]);
        assert docs[..i + 1] == docs[..i] + [docs[i]];
        i := i + 1;
      }
      assert docs[..i] == docs;
    }
  }

  /** Usage example only; it models no function of the source. A session at
      the desk: book a `fecha`, try to book it again for another patient,
      list, then cancel. */
  method DeskSession() {
    var turnos := new Turnos([]);
    var first := turnos.Book("Lucia", "Gomez", "30111222", "2024-06-03 10:00");
    assert first == Assigned;
    var lucia := Turno("Lucia", "Gomez", "30111222", "2024-06-03 10:00");
    assert turnos.docs == [lucia];
    assert HasFecha(turnos.docs, lucia.fecha) by { assert turnos.docs[0] == lucia; }
    var second := turnos.Book("Martin", "Diaz", "28999000", "2024-06-03 10:00");
    assert second == AlreadyOccupied;
    assert turnos.docs == [lucia];
    var listing := turnos.List();
    assert multiset(listing) == multiset{lucia};
    var cancelled := turnos.Cancel("2024-06-03 10:00");
    assert cancelled == Cancelled;
    BookThenCancelRestores([], lucia);
    assert turnos.docs == [];
    var again := turnos.Cancel("2024-06-03 10:00");
    assert again == NotFound;
  }
}
