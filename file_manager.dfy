/**
 * The two persistence back ends. Each manager owns one output file, modelled
 * as the collection the file holds (`None`: no file exists at the path); the
 * JSON and CSV encodings themselves are not modelled. `save` overwrites the
 * file; `add_object` and `delete_object` read the whole file, change the list
 * and write it all back.
 */
module FileManager {
  import opened Wrappers
  import opened Sequences

  /** The exceptions the managers let escape. */
  datatype IoError =
    | FileNotFound  // open(..., 'r') on a path with no file
    | ValueError    // list.remove of an absent element, or DictWriter meeting a key outside the header
    | IndexError    // data[0] of an empty list

  /** The index of the first occurrence of `x` in `s`. */
  function IndexOf<T(==)>(s: seq<T>, x: T): (i: nat)
    requires x in s
    ensures i < |s| && s[i] == x
  {
    if s[0] == x then 0 else 1 + IndexOf(s[1..], x)
  }

  /** No element before `IndexOf(s, x)` equals `x`. */
  lemma {:induction false} IndexOfFirst<T>(s: seq<T>, x: T)
    requires x in s
    ensures forall j :: 0 <= j < IndexOf(s, x) ==> s[j] != x
  {
    if s[0] != x {
      IndexOfFirst(s[1..], x);
    }
  }

  /** `list.remove(x)`: drops the first element equal to `x`; `None` where Python raises `ValueError`. */
  function RemoveFirst<T(==)>(s: seq<T>, x: T): (r: Option<seq<T>>)
    ensures r.None? <==> x !in s
    ensures r.Some? ==> |r.value| == |s| - 1
  {
    if s == [] then None
    else if s[0] == x then Some(s[1..])
    else match RemoveFirst(s[1..], x)
      case None => None
      case Some(t) => Some([s[0]] + t)
  }

  /** What `list.remove` leaves: everything before the first `x`, then everything after it, in order. */
  lemma {:induction false} RemoveFirstAt<T>(s: seq<T>, x: T)
    requires x in s
    ensures RemoveFirst(s, x) == Some(s[..IndexOf(s, x)] + s[IndexOf(s, x) + 1..])
  {
    if s[0] == x {
      assert s[..0] + s[1..] == s[1..];
    } else {
      RemoveFirstAt(s[1..], x);
      RemoveFirstPastHead(s, x);
    }
  }

  /** One step of `RemoveFirstAt`: an occurrence past the head is removed from the tail. */
  lemma RemoveFirstPastHead<T>(s: seq<T>, x: T)
    requires x in s && s[0] != x
    requires RemoveFirst(s[1..], x) == Some(s[1..][..IndexOf(s[1..], x)] + s[1..][IndexOf(s[1..], x) + 1..])
    ensures RemoveFirst(s, x) == Some(s[..IndexOf(s, x)] + s[IndexOf(s, x) + 1..])
  {
    var i := IndexOf(s[1..], x);
    assert IndexOf(s, x) == i + 1;
    SpliceAfterHead(s, i);
  }

  /** `list.remove` takes away exactly one occurrence of `x` and keeps every other element. */
  lemma RemoveFirstCount<T>(s: seq<T>, x: T)
    requires x in s
    ensures multiset(RemoveFirst(s, x).value) == multiset(s) - multiset{x}
  {
    var i := IndexOf(s, x);
    var t := s[..i] + s[i + 1..];
    assert RemoveFirst(s, x) == Some(t) by {
      RemoveFirstAt(s, x);
    }
    assert multiset(t) == multiset(s) - multiset{x} by {
      SpliceCount(s, i, x);
    }
  }

  /** Removing index `i`, which holds `x`, takes one occurrence of `x` out of the multiset. */
  lemma SpliceCount<T>(s: seq<T>, i: nat, x: T)
    requires i < |s| && s[i] == x
    ensures multiset(s[..i] + s[i + 1..]) == multiset(s) - multiset{x}
  {
    assert s == s[..i] + [x] + s[i + 1..];
  }

  /** Removing index `i + 1` of `s` is keeping its head and removing index `i` of its tail. */
  lemma SpliceAfterHead<T>(s: seq<T>, i: nat)
    requires i + 1 < |s|
    ensures [s[0]] + (s[1..][..i] + s[1..][i + 1..]) == s[..i + 1] + s[i + 2..]
  {
  }

  /** `[row for row in rows if row != x]`: every element equal to `x` dropped. */
  function RemoveAll<T(==)>(s: seq<T>, x: T): (r: seq<T>)
    ensures |r| <= |s| && x !in r
    ensures forall i :: 0 <= i < |r| ==> r[i] in s
  {
    Keep(s, y => y != x)
  }

  /** The comprehension looks at the head and then at the rest. */
  lemma RemoveAllCons<T>(x: T, y: T, s: seq<T>)
    ensures RemoveAll([y] + s, x) == (if y != x then [y] else []) + RemoveAll(s, x)
  {
  }

  /** Dropping the middle of three elements, equal to neither neighbour, leaves the other two. */
  lemma RemoveMiddle<T>(a: T, b: T, c: T)
    requires a != b && c != b
    ensures RemoveAll([a, b, c], b) == [a, c]
  {
    RemoveAllCons(b, a, [b, c]);
    RemoveAllCons(b, b, [c]);
    RemoveAllCons(b, c, []);
    assert [a, b, c] == [a] + [b, c] && [b, c] == [b] + [c] && [c] == [c] + [];
  }

  /** No `x` is left, every other value keeps its number of occurrences and its order, and nothing changes when `x` is absent. */
  lemma RemoveAllExactly<T>(s: seq<T>, x: T)
    ensures x !in RemoveAll(s, x)
    ensures forall y :: y != x ==> multiset(RemoveAll(s, x))[y] == multiset(s)[y]
    ensures IsSubsequence(RemoveAll(s, x), s)
    ensures x !in s ==> RemoveAll(s, x) == s
  {
    forall y | y != x
      ensures multiset(RemoveAll(s, x))[y] == multiset(s)[y]
    {
      KeepCount(s, y => y != x, y);
    }
    KeepCount(s, y => y != x, x);
    KeepIsSubsequence(s, y => y != x);
    if x !in s {
      KeepAll(s, y => y != x);
    }
  }

  /** Manages a JSON file holding an array of records. */
  class JsonFileManager<T(==)> {
    /** The array stored at the output path; `None` while no file exists there. */
    var file: Option<seq<T>>

    /** A manager whose output path currently holds `existing`. */
    constructor (existing: Option<seq<T>>)
      ensures file == existing
    {
      file := existing;
    }

    /** `save`: (re)writes the file with exactly `data`. */
    method Save(data: seq<T>)
      modifies this
      ensures file == Some(data)
    {
      file := Some(data);
    }

    /** `add_object`: appends `d` to the stored array; fails without writing when there is no file. */
    method AddObject(d: T) returns (o: Outcome<IoError>)
      modifies this
      ensures old(file).None? ==> o == Fail(FileNotFound) && file == old(file)
      ensures old(file).Some? ==> o == Pass && file == Some(old(file).value + [d])
    {
      if file.None? {
        return Fail(FileNotFound);
      }
      var fileData := file.value;
      fileData := fileData + [d];
      file := Some(fileData);
      o := Pass;
    }

    /** `delete_object`: removes the first stored element equal to `d`; fails without writing when there is no file or no such element. */
    method DeleteObject(d: T) returns (o: Outcome<IoError>)
      modifies this
      ensures old(file).None? ==> o == Fail(FileNotFound) && file == old(file)
      ensures old(file).Some? && d !in old(file).value ==> o == Fail(ValueError) && file == old(file)
      ensures old(file).Some? && d in old(file).value ==>
        && o == Pass
        && file == Some(old(file).value[..IndexOf(old(file).value, d)] + old(file).value[IndexOf(old(file).value, d) + 1..])
    {
      if file.None? {
        return Fail(FileNotFound);
      }
      var fileData := file.value;
      var removed := RemoveFirst(fileData, d);
      if removed.None? {
        return Fail(ValueError);
      }
      RemoveFirstAt(fileData, d);
      file := removed;
      o := Pass;
    }
  }

  /** A CSV row as `csv.DictReader` yields it and `csv.DictWriter` takes it: column name to value. */
  type Row<V> = map<string, V>

  /** A CSV file: the header's column names and the data rows. */
  datatype Table<V> = Table(header: set<string>, rows: seq<Row<V>>)

  /** `DictWriter` writes a row only if all its keys are columns of the header. */
  predicate Fits<V>(row: Row<V>, header: set<string>)
  {
    row.Keys <= header
  }

  predicate AllFit<V>(t: Table<V>)
  {
    forall i :: 0 <= i < |t.rows| ==> Fits(t.rows[i], t.header)
  }

  /** How many rows `writerows` writes before it raises on the first row that does not fit. */
  function WritablePrefix<V>(header: set<string>, rows: seq<Row<V>>): (n: nat)
    ensures n <= |rows|
    ensures forall i :: 0 <= i < n ==> Fits(rows[i], header)
    ensures n < |rows| ==> !Fits(rows[n], header)
  {
    if rows == [] || !Fits(rows[0], header) then 0
    else 1 + WritablePrefix(header, rows[1..])
  }

  /** Dropping rows keeps every remaining row inside the header. */
  lemma KeepFits<V>(header: set<string>, rows: seq<Row<V>>, p: Row<V> -> bool)
    requires forall i :: 0 <= i < |rows| ==> Fits(rows[i], header)
    ensures forall i :: 0 <= i < |Keep(rows, p)| ==> Fits(Keep(rows, p)[i], header)
  {
  }

  /** When every row fits the header, `writerows` writes them all. */
  lemma AllWritable<V>(header: set<string>, rows: seq<Row<V>>)
    requires forall i :: 0 <= i < |rows| ==> Fits(rows[i], header)
    ensures WritablePrefix(header, rows) == |rows|
  {
  }

  /** Manages a CSV file with a header row. */
  class CsvFileManager<V(==)> {
    /** The table stored at the output path; `None` while no file exists there. */
    var file: Option<Table<V>>

    /** A file this manager wrote never holds a row with a key outside its header. */
    ghost predicate Valid()
      reads this
    {
      file.Some? ==> AllFit(file.value)
    }

    /** A manager whose output path currently holds `existing`. */
    constructor (existing: Option<Table<V>>)
      requires existing.Some? ==> AllFit(existing.value)
      ensures Valid() && file == existing
    {
      file := existing;
    }

    /** Opens the file for writing (truncating it), writes the header and then the rows up to the first one that does not fit. The header is written every time: the truncated file is always at position 0. */
    method Write(header: set<string>, rows: seq<Row<V>>) returns (o: Outcome<IoError>)
      modifies this
      ensures Valid()
      ensures file == Some(Table(header, rows[..WritablePrefix(header, rows)]))
      ensures o == if WritablePrefix(header, rows) == |rows| then Pass else Fail(ValueError)
    {
      var n := WritablePrefix(header, rows);
      file := Some(Table(header, rows[..n]));
      o := if n == |rows| then Pass else Fail(ValueError);
    }

    /** `save`: the header is the keys of the first row; an empty `data` raises before the file is opened. */
    method Save(data: seq<Row<V>>) returns (o: Outcome<IoError>)
      requires Valid()
      modifies this
      ensures Valid()
      ensures |data| == 0 ==> o == Fail(IndexError) && file == old(file)
      ensures |data| > 0 ==> file == Some(Table(data[0].Keys, data[..WritablePrefix(data[0].Keys, data)]))
      ensures |data| > 0 ==> o == if forall i :: 0 <= i < |data| ==> Fits(data[i], data[0].Keys) then Pass else Fail(ValueError)
    {
      if |data| == 0 {
        return Fail(IndexError);
      }
      var keys := data[0].Keys;
      o := Write(keys, data);
    }

    /** `add_object`: rewrites the header read from the file, the old rows and `d`; fails without writing when there is no file. */
    method AddObject(d: Row<V>) returns (o: Outcome<IoError>)
      requires Valid()
      modifies this
      ensures Valid()
      ensures old(file).None? ==> o == Fail(FileNotFound) && file == old(file)
      ensures old(file).Some? && Fits(d, old(file).value.header) ==>
        o == Pass && file == Some(Table(old(file).value.header, old(file).value.rows + [d]))
      ensures old(file).Some? && !Fits(d, old(file).value.header) ==>
        o == Fail(ValueError) && file == old(file)
    {
      if file.None? {
        return Fail(FileNotFound);
      }
      var rows := file.value.rows;
      var fieldnames := file.value.header;
      rows := rows + [d];
      assert forall i :: 0 <= i < |rows| - 1 ==> Fits(rows[i], fieldnames);
      assert rows[..|rows| - 1] == old(file).value.rows;
      assert rows[|rows| - 1] == d;
      var n := WritablePrefix(fieldnames, rows);
      assert n >= |rows| - 1;
      assert Fits(d, fieldnames) ==> n == |rows| && rows[..n] == rows;
      o := Write(fieldnames, rows);
    }

    /** `delete_object`: rewrites the header and every row not equal to `d`; fails without writing when there is no file. */
    method DeleteObject(d: Row<V>) returns (o: Outcome<IoError>)
      requires Valid()
      modifies this
      ensures Valid()
      ensures old(file).None? ==> o == Fail(FileNotFound) && file == old(file)
      ensures old(file).Some? ==>
        o == Pass && file == Some(Table(old(file).value.header, RemoveAll(old(file).value.rows, d)))
    {
      if file.None? {
        return Fail(FileNotFound);
      }
      var rows := RemoveAll(file.value.rows, d);
      var fieldnames := file.value.header;
      KeepFits(fieldnames, file.value.rows, y => y != d);
      assert rows[..|rows|] == rows;
      o := Write(fieldnames, rows);
    }
  }

  /** Save two records, append a third, delete the second: each reload shows the expected array. */
  method JsonScenario<T(==)>(r1: T, r2: T, r3: T) returns (saved: seq<T>, added: seq<T>, deleted: seq<T>)
    ensures saved == [r1, r2] && added == [r1, r2, r3] && deleted == [r1, r3]
  {
    var m := new JsonFileManager<T>(None);
    m.Save([r1, r2]);
    saved := m.file.value;
    var o := m.AddObject(r3);
    added := m.file.value;
    assert added == [r1, r2, r3];
    assert r1 == r2 ==> IndexOf(added, r2) == 0;
    assert r1 != r2 ==> IndexOf(added, r2) == 1;
    o := m.DeleteObject(r2);
    deleted := m.file.value;
    assert r1 == r2 ==> deleted == [r2, r3];
    assert r1 != r2 ==> deleted == [r1, r3];
    assert deleted == [r1, r3];
  }

  /** The same scenario on the CSV manager, with distinct rows whose keys are columns of the first. */
  method CsvScenario<V(==)>(r1: Row<V>, r2: Row<V>, r3: Row<V>) returns (saved: seq<Row<V>>, added: seq<Row<V>>, deleted: seq<Row<V>>)
    requires r2.Keys <= r1.Keys && r3.Keys <= r1.Keys
    requires r1 != r2 && r3 != r2
    ensures saved == [r1, r2] && added == [r1, r2, r3] && deleted == [r1, r3]
  {
    var m := new CsvFileManager<V>(None);
    var data := [r1, r2];
    assert data[..WritablePrefix(r1.Keys, data)] == data by {
      AllWritable(r1.Keys, data);
    }
    var o := m.Save(data);
    saved := m.file.value.rows;
    assert Fits(r3, r1.Keys);
    o := m.AddObject(r3);
    added := m.file.value.rows;
    assert added == [r1, r2, r3];
    RemoveMiddle(r1, r2, r3);
    o := m.DeleteObject(r2);
    deleted := m.file.value.rows;
  }

  /** Saving no rows to a CSV file fails and leaves whatever was at the path. */
  method CsvSaveEmpty<V(==)>(existing: Option<Table<V>>) returns (o: Outcome<IoError>, after: Option<Table<V>>)
    requires existing.Some? ==> AllFit(existing.value)
    ensures o == Fail(IndexError) && after == existing
  {
    var m := new CsvFileManager<V>(existing);
    o := m.Save([]);
    after := m.file;
  }
}
