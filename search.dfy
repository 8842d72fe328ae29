/**
 * The search query: every row of the humans, droids and starships seed
 * tables, in that order, whose name contains the search text, ignoring the
 * case of ASCII letters. The text is taken literally (see README).
 */
module Search {
  import opened Store

  /** The lower-case form of an ASCII upper-case letter; any other character is unchanged. */
  function Fold(c: char): (r: char)
  {
    if 'A' <= c <= 'Z' then (c as int + 32) as char else c
  }

  /** Two strings of the same length that agree letter by letter up to case. */
  predicate EqualsFolded(a: string, b: string)
  {
    |a| == |b| && forall k :: 0 <= k < |a| ==> Fold(a[k]) == Fold(b[k])
  }

  /** The case-insensitive test: the text occurs at some position of the name. */
  ghost predicate OccursAt(name: string, text: string, i: int)
  {
    0 <= i && i + |text| <= |name| && EqualsFolded(name[i..i + |text|], text)
  }

  /** RegExp(text, "i").test(name) for a text without metacharacters: a left-to-right scan. */
  function Matches(name: string, text: string): (r: bool)
    decreases |name|
  {
    if |text| <= |name| && EqualsFolded(name[..|text|], text) then true
    else if |name| == 0 then false
    else Matches(name[1..], text)
  }

  /** An occurrence in the name without its first character is an occurrence one position later in the name. */
  lemma OccursShift(name: string, text: string, i: int)
    requires |name| > 0 && 0 <= i
    ensures OccursAt(name[1..], text, i) <==> OccursAt(name, text, i + 1)
  {
    if 0 <= i && i + |text| <= |name| - 1 {
      assert name[1..][i..i + |text|] == name[i + 1..i + 1 + |text|];
    }
  }

  /** The scan finds the text exactly when it occurs somewhere in the name. */
  lemma {:induction false} MatchesIff(name: string, text: string)
    ensures Matches(name, text) <==> exists i :: OccursAt(name, text, i)
    decreases |name|
  {
    if |text| <= |name| && EqualsFolded(name[..|text|], text) {
      assert OccursAt(name, text, 0);
    } else if |name| > 0 {
      MatchesIff(name[1..], text);
      assert !OccursAt(name, text, 0);
      if i :| OccursAt(name[1..], text, i) {
        OccursShift(name, text, i);
      }
      if i :| OccursAt(name, text, i) {
        OccursShift(name, text, i - 1);
      }
    }
  }

  /** The empty text matches every name, as the empty pattern does. */
  lemma EmptyTextMatches(name: string)
    ensures Matches(name, "")
  {
  }

  /** allData.filter(obj => re.test(obj.name)): the matching rows, in order, duplicates kept. */
  function FilterByName(rows: seq<Record>, text: string): (r: seq<Record>)
    ensures |r| <= |rows|
  {
    if rows == [] then []
    else (if Matches(rows[0].name, text) then [rows[0]] else []) + FilterByName(rows[1..], text)
  }

  /**
   * The filter keeps every matching row as often as the input holds it and
   * drops every other row.
   */
  lemma {:induction false} FilterCounts(rows: seq<Record>, text: string, x: Record)
    ensures multiset(FilterByName(rows, text))[x] == if Matches(x.name, text) then multiset(rows)[x] else 0
  {
    if rows != [] {
      var h := if Matches(rows[0].name, text) then [rows[0]] else [];
      FilterCounts(rows[1..], text, x);
      assert multiset(FilterByName(rows, text)) == multiset(h) + multiset(FilterByName(rows[1..], text));
      assert rows == [rows[0]] + rows[1..];
      assert multiset(rows) == multiset([rows[0]]) + multiset(rows[1..]);
    }
  }

  /** Filtering a concatenation filters each part, keeping their order. */
  lemma {:induction false} FilterAppend(a: seq<Record>, b: seq<Record>, text: string)
    ensures FilterByName(a + b, text) == FilterByName(a, text) + FilterByName(b, text)
  {
    if a == [] {
      assert a + b == b;
    } else {
      var h := if Matches(a[0].name, text) then [a[0]] else [];
      assert (a + b)[0] == a[0] && (a + b)[1..] == a[1..] + b;
      assert FilterByName(a + b, text) == h + FilterByName(a[1..] + b, text);
      FilterAppend(a[1..], b, text);
      assert h + (FilterByName(a[1..], text) + FilterByName(b, text))
          == (h + FilterByName(a[1..], text)) + FilterByName(b, text);
    }
  }

  function SearchRows(db: Db, text: string): (r: seq<Record>)
  {
    FilterByName(db.humans + db.droids + db.starships, text)
  }

  /**
   * The results are the matching humans, then the matching droids, then the
   * matching starships; a row is a result exactly when its name matches.
   */
  lemma SearchInStoreOrder(db: Db, text: string)
    ensures SearchRows(db, text)
      == FilterByName(db.humans, text) + FilterByName(db.droids, text) + FilterByName(db.starships, text)
    ensures forall x :: x in SearchRows(db, text) <==> x in db.humans + db.droids + db.starships && Matches(x.name, text)
  {
    FilterAppend(db.humans + db.droids, db.starships, text);
    FilterAppend(db.humans, db.droids, text);
    var r := SearchRows(db, text);
    forall x ensures x in r <==> x in db.humans + db.droids + db.starships && Matches(x.name, text) {
      FilterCounts(db.humans + db.droids + db.starships, text, x);
      assert x in r <==> multiset(r)[x] > 0;
      assert x in db.humans + db.droids + db.starships <==> multiset(db.humans + db.droids + db.starships)[x] > 0;
    }
  }

  /** Every search result resolves to a SearchResult type. */
  lemma SearchResultsResolve(db: Db, text: string)
    requires Indexed(db)
    ensures forall x :: x in SearchRows(db, text) ==> SearchResultType(db, x).Some?
  {
    SearchInStoreOrder(db, text);
    forall x | x in SearchRows(db, text) ensures SearchResultType(db, x).Some? {
      SearchResultTypeOfRow(db, x);
    }
  }
}
