/** The check-then-insert pass the WordPress importer runs for authors, tags,
    categories and posts: each document element whose natural key no stored
    row has yet becomes a new row, committed at once, so a key repeated in
    the document is inserted only the first time. Building a row may fail
    (a post whose excerpt cannot be found); the pass then stops, keeping
    what it has inserted so far. */
module Passes {
  import opened Models

  /** The table after a pass, the next free id, and whether the pass ran to
      the end. */
  datatype Scanned<R> = Scanned(rows: seq<R>, next: int, ok: bool)

  predicate HasKey<R>(rows: seq<R>, rk: R -> string, k: string) {
    exists i :: 0 <= i < |rows| && rk(rows[i]) == k
  }

  predicate UniqueKeys<R>(rows: seq<R>, rk: R -> string) {
    forall i, j :: 0 <= i < j < |rows| ==> rk(rows[i]) != rk(rows[j])
  }

  /** A row built from an element carries the element's key. */
  ghost predicate KeyKept<E(!new), R(!new)>(ek: E -> string, rk: R -> string, make: (E, seq<R>, int) -> Option<R>) {
    forall x, rs, n :: make(x, rs, n).Some? ==> rk(make(x, rs, n).value) == ek(x)
  }

  /** One element of the pass: skipped when its key is already stored. */
  function Step<E, R>(s: Scanned<R>, x: E, ek: E -> string, rk: R -> string,
                      make: (E, seq<R>, int) -> Option<R>): Scanned<R>
  {
    if !s.ok || HasKey(s.rows, rk, ek(x)) then s
    else
      match make(x, s.rows, s.next)
      case None => s.(ok := false)
      case Some(r) => Scanned(s.rows + [r], s.next + 1, true)
  }

  /** The whole pass, element by element in document order. */
  function Scan<E, R>(rows: seq<R>, xs: seq<E>, next: int, ek: E -> string, rk: R -> string,
                      make: (E, seq<R>, int) -> Option<R>): Scanned<R>
    decreases |xs|
  {
    if xs == [] then Scanned(rows, next, true)
    else Step(Scan(rows, xs[..|xs| - 1], next, ek, rk, make), xs[|xs| - 1], ek, rk, make)
  }

  /** One more element of the document is one more step of the pass. */
  lemma ScanNext<E, R>(rows: seq<R>, xs: seq<E>, i: nat, next: int, ek: E -> string, rk: R -> string,
                       make: (E, seq<R>, int) -> Option<R>)
    requires i < |xs|
    ensures Scan(rows, xs[..i + 1], next, ek, rk, make) == Step(Scan(rows, xs[..i], next, ek, rk, make), xs[i], ek, rk, make)
  {
    assert xs[..i + 1][..i] == xs[..i];
  }

  /** The pass only appends, and takes one id per appended row. */
  lemma {:induction false} ScanGrows<E, R>(rows: seq<R>, xs: seq<E>, next: int, ek: E -> string, rk: R -> string,
                                           make: (E, seq<R>, int) -> Option<R>)
    ensures var s := Scan(rows, xs, next, ek, rk, make);
            |rows| <= |s.rows| && s.rows[..|rows|] == rows && s.next == next + |s.rows| - |rows|
    decreases |xs|
  {
    if xs != [] {
      ScanGrows(rows, xs[..|xs| - 1], next, ek, rk, make);
      var p := Scan(rows, xs[..|xs| - 1], next, ek, rk, make);
      var s := Scan(rows, xs, next, ek, rk, make);
      if s != p {
        assert s.rows[..|rows|] == p.rows[..|rows|];
      }
    }
  }

  /** Every appended row is what the builder made from some element of the
      document, given the table as it stood and the id then next. */
  lemma {:induction false} ScanMade<E, R>(rows: seq<R>, xs: seq<E>, next: int, ek: E -> string, rk: R -> string,
                                          make: (E, seq<R>, int) -> Option<R>)
    ensures var s := Scan(rows, xs, next, ek, rk, make);
            forall j :: |rows| <= j < |s.rows| ==>
              exists i :: 0 <= i < |xs| && make(xs[i], s.rows[..j], next + j - |rows|) == Some(s.rows[j])
    decreases |xs|
  {
    if xs != [] {
      var ys := xs[..|xs| - 1];
      ScanMade(rows, ys, next, ek, rk, make);
      ScanGrows(rows, ys, next, ek, rk, make);
      var p := Scan(rows, ys, next, ek, rk, make);
      var s := Scan(rows, xs, next, ek, rk, make);
      forall j | |rows| <= j < |s.rows|
        ensures exists i :: 0 <= i < |xs| && make(xs[i], s.rows[..j], next + j - |rows|) == Some(s.rows[j])
      {
        if j < |p.rows| {
          assert s.rows[..j] == p.rows[..j];
          var i :| 0 <= i < |ys| && make(ys[i], p.rows[..j], next + j - |rows|) == Some(p.rows[j]);
          assert xs[i] == ys[i];
        } else {
          assert s.rows[..j] == p.rows;
          assert make(xs[|xs| - 1], s.rows[..j], next + j - |rows|) == Some(s.rows[j]);
        }
      }
    }
  }

  /** No row is appended whose key the table already held: a table with
      unique keys keeps them unique, and every appended key is new. */
  lemma {:induction false} ScanUnique<E(!new), R(!new)>(rows: seq<R>, xs: seq<E>, next: int, ek: E -> string, rk: R -> string,
                                            make: (E, seq<R>, int) -> Option<R>)
    requires KeyKept(ek, rk, make)
    ensures var s := Scan(rows, xs, next, ek, rk, make);
            forall j :: |rows| <= j < |s.rows| ==> forall k :: 0 <= k < j ==> rk(s.rows[k]) != rk(s.rows[j])
    ensures UniqueKeys(rows, rk) ==> UniqueKeys(Scan(rows, xs, next, ek, rk, make).rows, rk)
    decreases |xs|
  {
    if xs != [] {
      var ys := xs[..|xs| - 1];
      ScanUnique(rows, ys, next, ek, rk, make);
      ScanGrows(rows, ys, next, ek, rk, make);
      ScanGrows(rows, xs, next, ek, rk, make);
      var p := Scan(rows, ys, next, ek, rk, make);
      var s := Scan(rows, xs, next, ek, rk, make);
      if s.rows != p.rows {
        var x := xs[|xs| - 1];
        assert !HasKey(p.rows, rk, ek(x));
        assert s.rows == p.rows + [make(x, p.rows, p.next).value];
        assert rk(s.rows[|p.rows|]) == ek(x);
      }
    }
  }

  /** A pass that runs to the end leaves every key of the document stored. */
  lemma {:induction false} ScanCovers<E(!new), R(!new)>(rows: seq<R>, xs: seq<E>, next: int, ek: E -> string, rk: R -> string,
                                            make: (E, seq<R>, int) -> Option<R>)
    requires KeyKept(ek, rk, make)
    ensures var s := Scan(rows, xs, next, ek, rk, make);
            s.ok ==> forall i :: 0 <= i < |xs| ==> HasKey(s.rows, rk, ek(xs[i]))
    decreases |xs|
  {
    if xs != [] {
      var ys := xs[..|xs| - 1];
      ScanCovers(rows, ys, next, ek, rk, make);
      var p := Scan(rows, ys, next, ek, rk, make);
      var s := Scan(rows, xs, next, ek, rk, make);
      if s.ok {
        assert p.ok;
        var x := xs[|xs| - 1];
        if !HasKey(p.rows, rk, ek(x)) {
          assert s.rows == p.rows + [make(x, p.rows, p.next).value];
          assert rk(s.rows[|p.rows|]) == ek(x);
        }
        forall i | 0 <= i < |xs| ensures HasKey(s.rows, rk, ek(xs[i])) {
          if i < |ys| {
            assert xs[i] == ys[i];
            var k :| 0 <= k < |p.rows| && rk(p.rows[k]) == ek(ys[i]);
            assert s.rows[k] == p.rows[k];
          }
        }
      }
    }
  }

  /** When every key of the document is already stored, the pass changes
      nothing. */
  lemma {:induction false} ScanIdle<E, R>(rows: seq<R>, xs: seq<E>, next: int, ek: E -> string, rk: R -> string,
                                          make: (E, seq<R>, int) -> Option<R>)
    requires forall i :: 0 <= i < |xs| ==> HasKey(rows, rk, ek(xs[i]))
    ensures Scan(rows, xs, next, ek, rk, make) == Scanned(rows, next, true)
    decreases |xs|
  {
    if xs != [] {
      ScanIdle(rows, xs[..|xs| - 1], next, ek, rk, make);
    }
  }

  /** Running a completed pass a second time adds nothing. */
  lemma ScanAgain<E(!new), R(!new)>(rows: seq<R>, xs: seq<E>, next: int, next2: int, ek: E -> string, rk: R -> string,
                        make: (E, seq<R>, int) -> Option<R>)
    requires KeyKept(ek, rk, make)
    requires Scan(rows, xs, next, ek, rk, make).ok
    ensures var s := Scan(rows, xs, next, ek, rk, make);
            Scan(s.rows, xs, next2, ek, rk, make) == Scanned(s.rows, next2, true)
  {
    ScanCovers(rows, xs, next, ek, rk, make);
    ScanIdle(Scan(rows, xs, next, ek, rk, make).rows, xs, next2, ek, rk, make);
  }

  /** A builder that never fails gives a pass that runs to the end. */
  lemma {:induction false} ScanTotal<E, R>(rows: seq<R>, xs: seq<E>, next: int, ek: E -> string, rk: R -> string,
                                           make: (E, seq<R>, int) -> Option<R>)
    requires forall x, rs, n :: make(x, rs, n).Some?
    ensures Scan(rows, xs, next, ek, rk, make).ok
    decreases |xs|
  {
    if xs != [] {
      ScanTotal(rows, xs[..|xs| - 1], next, ek, rk, make);
    }
  }

  /** Once the pass has stopped, the remaining elements change nothing. */
  lemma {:induction false} ScanStopped<E, R>(rows: seq<R>, xs: seq<E>, k: nat, next: int, ek: E -> string, rk: R -> string,
                                             make: (E, seq<R>, int) -> Option<R>)
    requires k <= |xs|
    requires !Scan(rows, xs[..k], next, ek, rk, make).ok
    ensures Scan(rows, xs, next, ek, rk, make) == Scan(rows, xs[..k], next, ek, rk, make)
    decreases |xs|
  {
    if k < |xs| {
      var ys := xs[..|xs| - 1];
      assert ys[..k] == xs[..k];
      ScanStopped(rows, ys, k, next, ek, rk, make);
    } else {
      assert xs[..k] == xs;
    }
  }
}
