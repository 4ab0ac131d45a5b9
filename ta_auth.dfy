/** The base class of the author-list formatters (Author/formats/ta_auth.py): it
    reads author rows into tuples, numbers the institutions in the order the
    formatted list meets them, and looks up one author's institution numbers. */
module TaAuth {
  import opened Wrappers
  import opened Text
  import opened Sorting
  import opened BraceGroups

  /** One author tuple (sort_key, surname, initials, orcid, institutions, status). */
  datatype Author = Author(sortKey: string, surname: string, initials: string, orcid: string,
                           institutions: string, status: string)

  /** One CSV row, already split into its fields. */
  type Row = seq<string>

  datatype ReadError =
    | EmptyFile           // `reader.next()` on a file without rows raises StopIteration
    | ShortRow(row: nat)  // row `row` (the header is row 0) has fewer than seven fields: IndexError

  /** `inst_dict[name]` on a name the dictionary does not hold. */
  datatype LookupError = KeyError(name: string)

  predicate Trimmed(s: string) {
    s == [] || (s[0] !in Whitespace && s[|s| - 1] !in Whitespace)
  }

  /** The tuple for one data row. Columns: 0 surname, 1 given name, 2 initials, 3 ORCID,
      4 institution code, 5 institutions, 6 status. */
  function AuthorOfRow(row: Row): Author
    requires |row| >= 7
  {
    var surname := Strip(row[0], Whitespace);
    var initials := Strip(row[2], Whitespace);
    Author(surname + "," + initials, surname, initials, Strip(row[3], Whitespace),
           Strip(row[5], Whitespace), Strip(row[6], Whitespace))
  }

  /** Every field of the tuple is stripped, and the sort key is the surname and the
      initials joined by a comma. */
  lemma AuthorOfRowTrimmed(row: Row)
    requires |row| >= 7
    ensures var a := AuthorOfRow(row);
            && a.sortKey == a.surname + "," + a.initials
            && Trimmed(a.surname) && Trimmed(a.initials) && Trimmed(a.orcid)
            && Trimmed(a.institutions) && Trimmed(a.status)
  {
  }

  /** The given-name and institution-code columns, and any column after the
      seventh, do not reach the tuple. */
  lemma AuthorOfRowIgnoresColumns(row: Row, other: Row)
    requires |row| >= 7 && |other| >= 7
    requires row[0] == other[0] && row[2] == other[2] && row[3] == other[3]
    requires row[5] == other[5] && row[6] == other[6]
    ensures AuthorOfRow(row) == AuthorOfRow(other)
  {
  }

  /** How many rows, from the first, have all seven fields. */
  function WellFormedPrefix(rows: seq<Row>): (n: nat)
    ensures n <= |rows|
    ensures forall k :: 0 <= k < n ==> |rows[k]| >= 7
    ensures n < |rows| ==> |rows[n]| < 7
  {
    if rows == [] || |rows[0]| < 7 then 0 else 1 + WellFormedPrefix(rows[1..])
  }

  /** The tuples of rows that all have seven fields, in order. */
  function AuthorsOfRows(rows: seq<Row>): (authors: seq<Author>)
    requires forall k :: 0 <= k < |rows| ==> |rows[k]| >= 7
    ensures |authors| == |rows|
  {
    seq(|rows|, k requires 0 <= k < |rows| => AuthorOfRow(rows[k]))
  }

  predicate Distinct(u: seq<string>) {
    forall i, j :: 0 <= i < j < |u| ==> u[i] != u[j]
  }

  /** Position of the first occurrence of `x` in `s`. */
  function IndexOf(s: seq<string>, x: string): (r: nat)
    requires x in s
    ensures r < |s| && s[r] == x
    ensures forall j :: 0 <= j < r ==> s[j] != x
  {
    if s[0] == x then 0 else 1 + IndexOf(s[1..], x)
  }

  /** The distinct elements of `s`, each where it first appears. */
  function FirstAppearances(s: seq<string>): (u: seq<string>)
    ensures Distinct(u)
    ensures forall x :: x in u <==> x in s
  {
    if s == [] then []
    else
      var p := FirstAppearances(s[..|s| - 1]);
      if s[|s| - 1] in p then p else p + [s[|s| - 1]]
  }

  /** The institution names in the order `sort_and_number_institutions` meets them:
      authors in list order, each author's names in sorted order. */
  function Walk(authors: seq<Author>): seq<string>
  {
    if authors == [] then []
    else Walk(authors[..|authors| - 1]) + SortStrings(InstitutionNames(authors[|authors| - 1].institutions))
  }

  lemma WalkSnoc(authors: seq<Author>, e: nat)
    requires e < |authors|
    ensures Walk(authors[..e + 1]) == Walk(authors[..e]) + SortStrings(InstitutionNames(authors[e].institutions))
  {
    assert authors[..e + 1][..e] == authors[..e];
  }

  /** Every name of every author is met by the walk. */
  lemma {:induction false} WalkCovers(authors: seq<Author>, i: nat)
    requires i < |authors|
    ensures forall name :: name in InstitutionNames(authors[i].institutions) ==> name in Walk(authors)
    decreases |authors|
  {
    var init := authors[..|authors| - 1];
    var sorted := SortStrings(InstitutionNames(authors[|authors| - 1].institutions));
    assert Walk(authors) == Walk(init) + sorted;
    if i < |init| {
      WalkCovers(init, i);
      assert init[i] == authors[i];
    } else {
      assert i == |authors| - 1;
      forall name | name in InstitutionNames(authors[i].institutions) ensures name in sorted {
        assert name in multiset(sorted);
      }
    }
  }

  /** Some author of the list has `x` among the names of its institutions field. */
  ghost predicate NamedBySome(authors: seq<Author>, x: string) {
    exists i :: 0 <= i < |authors| && x in InstitutionNames(authors[i].institutions)
  }

  /** The walk meets exactly the names the authors' fields hold: nothing else. */
  lemma {:induction false} WalkNames(authors: seq<Author>, x: string)
    ensures x in Walk(authors) <==> NamedBySome(authors, x)
    decreases |authors|
  {
    if x in Walk(authors) {
      var init := authors[..|authors| - 1];
      var last := authors[|authors| - 1];
      var sorted := SortStrings(InstitutionNames(last.institutions));
      assert Walk(authors) == Walk(init) + sorted;
      if x in Walk(init) {
        WalkNames(init, x);
        var i :| 0 <= i < |init| && x in InstitutionNames(init[i].institutions);
        assert init[i] == authors[i];
      } else {
        assert x in multiset(sorted);
        assert x in InstitutionNames(authors[|authors| - 1].institutions);
      }
    }
    if NamedBySome(authors, x) {
      var i :| 0 <= i < |authors| && x in InstitutionNames(authors[i].institutions);
      WalkCovers(authors, i);
    }
  }

  /** `d` gives the names of `u`, and only those, the numbers 1, 2, 3, ... in the
      order of `u`. */
  ghost predicate Numbering(d: map<string, nat>, u: seq<string>) {
    && Distinct(u)
    && (forall x :: x in d <==> x in u)
    && (forall i :: 0 <= i < |u| ==> u[i] in d && d[u[i]] == i + 1)
  }

  /** The one dictionary that numbers `u`. */
  function NumberingOf(u: seq<string>): (d: map<string, nat>)
    requires Distinct(u)
    ensures Numbering(d, u)
  {
    map x | x in u :: IndexOf(u, x) + 1
  }

  /** A numbering of `u` is `NumberingOf(u)`: the dictionary is determined by the walk order. */
  lemma NumberingUnique(d: map<string, nat>, u: seq<string>)
    requires Numbering(d, u)
    ensures d == NumberingOf(u)
  {
    var e := NumberingOf(u);
    forall x | x in d ensures d[x] == e[x] {
      var i := IndexOf(u, x);
      assert d[u[i]] == i + 1 && e[u[i]] == i + 1;
    }
  }

  lemma {:induction false} DistinctCardinality(u: seq<string>)
    requires Distinct(u)
    ensures |set x | x in u| == |u|
  {
    if u != [] {
      var init := u[..|u| - 1];
      DistinctCardinality(init);
      assert (set x | x in u) == (set x | x in init) + {u[|u| - 1]};
      assert u[|u| - 1] !in (set x | x in init);
    }
  }

  /** The values of a numbering are exactly 1..|d|, each used by one name. */
  lemma NumberingIsBijection(d: map<string, nat>, u: seq<string>)
    requires Numbering(d, u)
    ensures |d| == |u|
    ensures forall x :: x in d ==> 1 <= d[x] <= |d| && x in u && d[x] == IndexOf(u, x) + 1
    ensures forall x, y :: x in d && y in d && d[x] == d[y] ==> x == y
  {
    assert d.Keys == set x | x in u;
    DistinctCardinality(u);
    forall x | x in d ensures x in u && d[x] == IndexOf(u, x) + 1 {
      var i := IndexOf(u, x);
      assert d[u[i]] == i + 1;
    }
  }

  /** Adding one more name to the walk: a new name gets the next number, a name seen
      before leaves the dictionary as it is. */
  lemma NumberingStep(d: map<string, nat>, s: seq<string>, x: string)
    requires Numbering(d, FirstAppearances(s))
    ensures x in d ==> FirstAppearances(s + [x]) == FirstAppearances(s)
    ensures x !in d ==> (&& Numbering(d[x := |FirstAppearances(s)| + 1], FirstAppearances(s + [x]))
                         && |FirstAppearances(s + [x])| == |FirstAppearances(s)| + 1)
  {
    assert (s + [x])[..|s|] == s;
    var u := FirstAppearances(s);
    if x !in d {
      var d' := d[x := |u| + 1];
      var u' := u + [x];
      forall i | 0 <= i < |u'| ensures u'[i] in d' && d'[u'[i]] == i + 1 {
        if i < |u| { assert u'[i] == u[i] && u[i] != x; }
      }
    }
  }

  /** Numbers follow first appearance: one name has a smaller number than another
      exactly when it appears earlier in the walk. */
  lemma {:induction false} FirstAppearanceOrder(s: seq<string>, x: string, y: string)
    requires x in s && y in s
    ensures IndexOf(FirstAppearances(s), x) < IndexOf(FirstAppearances(s), y)
            <==> IndexOf(s, x) < IndexOf(s, y)
  {
    var init := s[..|s| - 1];
    var z := s[|s| - 1];
    assert s == init + [z];
    var p := FirstAppearances(init);
    var u := FirstAppearances(s);
    if x in init && y in init {
      FirstAppearanceOrder(init, x, y);
      IndexOfAppend(init, z, x);
      IndexOfAppend(init, z, y);
      if z !in p {
        assert u == p + [z];
        IndexOfAppend(p, z, x);
        IndexOfAppend(p, z, y);
      }
    } else if x in init {
      assert y == z && z !in p && u == p + [z];
      IndexOfAppend(init, z, x);
      IndexOfAppend(p, z, x);
      IndexOfLast(init, z);
      IndexOfLast(p, z);
    } else if y in init {
      assert x == z && z !in p && u == p + [z];
      IndexOfAppend(init, z, y);
      IndexOfAppend(p, z, y);
      IndexOfLast(init, z);
      IndexOfLast(p, z);
    } else {
      assert x == z && y == z;
    }
  }

  lemma IndexOfLast(s: seq<string>, z: string)
    requires z !in s
    ensures IndexOf(s + [z], z) == |s|
  {
    assert (s + [z])[|s|] == z;
  }

  lemma IndexOfAppend(s: seq<string>, z: string, x: string)
    requires x in s
    ensures IndexOf(s + [z], x) == IndexOf(s, x)
  {
    var a, b := IndexOf(s + [z], x), IndexOf(s, x);
    assert (s + [z])[b] == x;
    assert s[a] == x;
  }

  /** `inst_dict[name]` for every name, in order. */
  function Lookups(names: seq<string>, d: map<string, nat>): seq<nat>
    requires forall name :: name in names ==> name in d
  {
    seq(|names|, k requires 0 <= k < |names| => d[names[k]])
  }

  lemma LookupsSnoc(names: seq<string>, d: map<string, nat>, k: nat)
    requires k < |names| && forall j :: 0 <= j <= k ==> names[j] in d
    ensures Lookups(names[..k + 1], d) == Lookups(names[..k], d) + [d[names[k]]]
  {
  }

  /** The institution numbers one author line shows, given the dictionary. */
  function AuthorNumbers(a: Author, d: map<string, nat>): (ns: seq<nat>)
    requires forall name :: name in InstitutionNames(a.institutions) ==> name in d
    ensures Sorted(ns, NatLeq)
    ensures multiset(ns) == multiset(Lookups(InstitutionNames(a.institutions), d))
  {
    SortNats(Lookups(InstitutionNames(a.institutions), d))
  }

  /** The institutions in the order they are numbered: name `n` of the legend has
      number `n + 1`. */
  function Legend(authors: seq<Author>): seq<string>
  {
    FirstAppearances(Walk(authors))
  }

  /** The dictionary every formatter computes for its author list. */
  function AuthorListNumbering(authors: seq<Author>): map<string, nat>
  {
    NumberingOf(Legend(authors))
  }

  /** The numbers on the line of author `i`. */
  function NumbersOf(authors: seq<Author>, i: nat): seq<nat>
    requires i < |authors|
  {
    WalkCovers(authors, i);
    AuthorNumbers(authors[i], AuthorListNumbering(authors))
  }

  /** Every number on an author's line refers to the legend entry of one of that
      author's institutions; there is one number per brace group. */
  lemma AuthorNumbersResolve(authors: seq<Author>, i: nat)
    requires i < |authors|
    ensures |NumbersOf(authors, i)| == |InstitutionNames(authors[i].institutions)|
    ensures forall n :: n in NumbersOf(authors, i) ==>
              && 1 <= n <= |Legend(authors)|
              && Legend(authors)[n - 1] in InstitutionNames(authors[i].institutions)
  {
    NumbersOfLookups(authors, i);
    LookupsResolve(Legend(authors), InstitutionNames(authors[i].institutions), NumbersOf(authors, i));
  }

  /** One number on the line of author `i`: it names a legend entry that is one of
      the author's institutions. */
  lemma AuthorNumberResolves(authors: seq<Author>, i: nat, n: nat)
    requires i < |authors| && n in NumbersOf(authors, i)
    ensures 1 <= n <= |Legend(authors)|
    ensures Legend(authors)[n - 1] in InstitutionNames(authors[i].institutions)
  {
    AuthorNumbersResolve(authors, i);
  }

  /** Every institution of an author appears in the legend, and the number the
      dictionary gives it is on the author's line. */
  lemma AuthorNumbersCover(authors: seq<Author>, i: nat, x: string)
    requires i < |authors| && x in InstitutionNames(authors[i].institutions)
    ensures x in Legend(authors) && x in AuthorListNumbering(authors)
    ensures AuthorListNumbering(authors)[x] in NumbersOf(authors, i)
  {
    NumbersOfLookups(authors, i);
    LookupsCover(Legend(authors), InstitutionNames(authors[i].institutions), NumbersOf(authors, i), x);
  }

  /** The numbers of author `i` are the list numbering's values for that author's
      names, in some order. */
  lemma NumbersOfLookups(authors: seq<Author>, i: nat)
    requires i < |authors|
    ensures Distinct(Legend(authors))
    ensures forall x :: x in InstitutionNames(authors[i].institutions) ==> x in Legend(authors)
    ensures multiset(NumbersOf(authors, i))
            == multiset(Lookups(InstitutionNames(authors[i].institutions), AuthorListNumbering(authors)))
  {
    WalkCovers(authors, i);
  }

  lemma LookupsResolve(u: seq<string>, names: seq<string>, ns: seq<nat>)
    requires Distinct(u) && forall x :: x in names ==> x in u
    requires multiset(ns) == multiset(Lookups(names, NumberingOf(u)))
    ensures |ns| == |names|
    ensures forall n :: n in ns ==> 1 <= n <= |u| && u[n - 1] in names
  {
    var d := NumberingOf(u);
    var looked := Lookups(names, d);
    assert |ns| == |multiset(ns)| == |multiset(looked)| == |looked|;
    forall n | n in ns ensures 1 <= n <= |u| && u[n - 1] in names {
      assert n in multiset(looked);
      var k :| 0 <= k < |looked| && looked[k] == n;
      NumberingOfAt(u, names[k]);
    }
  }

  /** The number `NumberingOf(u)` gives a name is one past its position in `u`. */
  lemma NumberingOfAt(u: seq<string>, x: string)
    requires Distinct(u) && x in u
    ensures 1 <= NumberingOf(u)[x] <= |u| && u[NumberingOf(u)[x] - 1] == x
  {
  }

  lemma LookupsCover(u: seq<string>, names: seq<string>, ns: seq<nat>, x: string)
    requires Distinct(u) && forall x :: x in names ==> x in u
    requires multiset(ns) == multiset(Lookups(names, NumberingOf(u)))
    requires x in names
    ensures x in u && x in NumberingOf(u) && NumberingOf(u)[x] in ns
  {
    var d := NumberingOf(u);
    var looked := Lookups(names, d);
    var k :| 0 <= k < |names| && names[k] == x;
    assert looked[k] == d[x];
    assert d[x] in multiset(looked);
    assert d[x] in multiset(ns);
  }

  /** The dictionary `sort_and_number_institutions` returns holds every name of
      every author, and is the list's numbering. */
  lemma AuthorNamesNumbered(authors: seq<Author>, i: nat, d: map<string, nat>)
    requires i < |authors| && Numbering(d, Legend(authors))
    ensures d == AuthorListNumbering(authors)
    ensures forall x :: x in InstitutionNames(authors[i].institutions) ==> x in d
  {
    NumberingUnique(d, Legend(authors));
    WalkCovers(authors, i);
  }

  /** What `get_author_institution_numbers` returns for author `i` is that author's
      numbers: a sorted list is determined by its elements. */
  lemma LookupIsNumbersOf(authors: seq<Author>, i: nat, d: map<string, nat>, ns: seq<nat>)
    requires i < |authors| && d == AuthorListNumbering(authors)
    requires forall x :: x in InstitutionNames(authors[i].institutions) ==> x in d
    requires Sorted(ns, NatLeq)
    requires multiset(ns) == multiset(Lookups(InstitutionNames(authors[i].institutions), d))
    ensures ns == NumbersOf(authors, i)
  {
    assert TotalOrder(NatLeq);
    SortedUnique(ns, NumbersOf(authors, i), NatLeq);
  }

  /** The numbering looks at the institutions column only. */
  lemma {:induction false} WalkOnlyInstitutions(a: seq<Author>, b: seq<Author>)
    requires |a| == |b| && forall i :: 0 <= i < |a| ==> a[i].institutions == b[i].institutions
    ensures Walk(a) == Walk(b)
    decreases |a|
  {
    if a != [] {
      WalkOnlyInstitutions(a[..|a| - 1], b[..|b| - 1]);
    }
  }

  /** Authors that agree on their institutions get the same legend and the same numbers. */
  lemma NumbersOnlyInstitutions(a: seq<Author>, b: seq<Author>)
    requires |a| == |b| && forall i :: 0 <= i < |a| ==> a[i].institutions == b[i].institutions
    ensures Legend(a) == Legend(b)
    ensures forall i :: 0 <= i < |a| ==> NumbersOf(a, i) == NumbersOf(b, i)
  {
    WalkOnlyInstitutions(a, b);
  }

  /** The decimal forms of `nums`. */
  function Decimals(nums: seq<nat>): seq<string>
  {
    seq(|nums|, k requires 0 <= k < |nums| => NatToString(nums[k]))
  }

  /** The numbers joined by `,`, as the formatters write them. */
  function NumberList(nums: seq<nat>): string
  {
    Join(Decimals(nums), ",")
  }

  /** The number list has no leading, trailing or doubled comma: split on `,` it
      gives back one decimal per number, denoting that number. */
  lemma NumberListRoundTrip(nums: seq<nat>)
    requires |nums| >= 1
    ensures var pieces := SplitOn(NumberList(nums), ',');
            && pieces == Decimals(nums)
            && |pieces| == |nums|
            && forall k :: 0 <= k < |nums| ==> IsDigits(pieces[k]) && DigitsValue(pieces[k]) == nums[k]
  {
    var ds := Decimals(nums);
    SplitOnJoin(ds, ',');
    forall k | 0 <= k < |nums| ensures IsDigits(ds[k]) && DigitsValue(ds[k]) == nums[k] {
      NatToStringValue(nums[k]);
    }
  }

  lemma NumberListSnoc(nums: seq<nat>, k: nat)
    requires k < |nums|
    ensures NumberList(nums[..k + 1]) ==
              NumberList(nums[..k]) + (if k > 0 then "," else "") + NatToString(nums[k])
  {
    var ds := Decimals(nums[..k + 1]);
    assert ds[..k] == Decimals(nums[..k]);
  }

  /** The loop every numbered formatter runs over an author's sorted numbers: a comma
      before every number but the first. */
  method AppendNumbers(line: string, nums: seq<nat>) returns (r: string)
    ensures r == line + NumberList(nums)
  {
    r := line;
    var i := 0;
    for k := 0 to |nums|
      invariant i == k
      invariant r == line + NumberList(nums[..k])
    {
      if i > 0 {
        r := r + ",";
      }
      r := r + NatToString(nums[k]);
      i := i + 1;
      NumberListSnoc(nums, k);
    }
    assert nums[..|nums|] == nums;
  }

  /** The `re.split` / `strip('{}')` loop that turns a field into its names. */
  method SplitInstitutions(institution: string) returns (insts: seq<string>)
    ensures insts == InstitutionNames(institution)
  {
    var groups := SplitGroups(institution);
    ghost var all := StripEach(groups);
    insts := [];
    for k := 0 to |groups|
      invariant insts == all[..k]
    {
      var inst := Strip(groups[k], Braces);
      StripEachAt(groups, k);
      TakeSnoc(all, k);
      insts := insts + [inst];
    }
    assert all[..|groups|] == all;
  }

  /** `sorted(inst_dict.items(), key=itemgetter(1))` for a dictionary that numbers
      `u`: every entry, by increasing number. */
  method ItemsByNumber(d: map<string, nat>, ghost u: seq<string>) returns (items: seq<(string, nat)>)
    requires Numbering(d, u)
    ensures |items| == |d| == |u|
    ensures forall i :: 0 <= i < |items| ==> items[i].0 in d && d[items[i].0] == items[i].1
    ensures forall i, j :: 0 <= i < j < |items| ==> items[i].1 < items[j].1
    ensures forall i :: 0 <= i < |items| ==> items[i] == (u[i], i + 1)
  {
    NumberingSize(d, u);
    items := [];
    for n := 1 to |d| + 1
      invariant |items| == n - 1
      invariant forall i :: 0 <= i < n - 1 ==> items[i] == (u[i], i + 1)
    {
      assert u[n - 1] in d && d[u[n - 1]] == n;
      var key :| key in d && d[key] == n;
      NumberedKey(d, u, key);
      items := items + [(key, n)];
    }
  }

  lemma NumberingSize(d: map<string, nat>, u: seq<string>)
    requires Numbering(d, u)
    ensures |d| == |u|
  {
    NumberingIsBijection(d, u);
  }

  /** The name a numbering gives number `n` is `u[n - 1]`. */
  lemma NumberedKey(d: map<string, nat>, u: seq<string>, key: string)
    requires Numbering(d, u) && key in d
    ensures 1 <= d[key] <= |u| && u[d[key] - 1] == key
  {
    var i := IndexOf(u, key);
    assert d[u[i]] == i + 1;
  }

  lemma TakeSnoc<T>(s: seq<T>, k: nat)
    requires k < |s|
    ensures s[..k + 1] == s[..k] + [s[k]]
  {
  }

  /** `for x in items: l.append(x)`. */
  method AppendEach(l: seq<string>, items: seq<string>) returns (r: seq<string>)
    ensures r == l + items
  {
    r := l;
    for k := 0 to |items|
      invariant r == l + items[..k]
    {
      r := r + [items[k]];
      TakeSnoc(items, k);
    }
    assert items[..|items|] == items;
  }

  /** The second half of `sort_and_number_institutions`: every name not yet in the
      dictionary gets the next number, counting from 1. */
  method NumberInOrder(institutions: seq<string>) returns (instDict: map<string, nat>)
    ensures Numbering(instDict, FirstAppearances(institutions))
  {
    var uniqueCount := 0;
    instDict := map[];
    for k := 0 to |institutions|
      invariant Numbering(instDict, FirstAppearances(institutions[..k]))
      invariant uniqueCount == |FirstAppearances(institutions[..k])|
    {
      var j := institutions[k];
      TakeSnoc(institutions, k);
      NumberingStep(instDict, institutions[..k], j);
      if j !in instDict {
        uniqueCount := uniqueCount + 1;
        instDict := instDict[j := uniqueCount];
      }
    }
    assert institutions[..|institutions|] == institutions;
  }

  /** The body of the read loop: strips the kept columns of one row and builds the
      tuple, its sort key the surname and the initials joined by a comma. */
  method ReadRow(row: Row) returns (a: Author)
    requires |row| >= 7
    ensures a == AuthorOfRow(row)
  {
    var surname := Strip(row[0], Whitespace);
    var initials := Strip(row[2], Whitespace);
    var orcid := Strip(row[3], Whitespace);
    var institutions := Strip(row[5], Whitespace);
    var status := Strip(row[6], Whitespace);
    var sortKey := surname + "," + initials;
    a := Author(sortKey, surname, initials, orcid, institutions, status);
  }

  class TaAuth {
    var authorData: seq<Author>
    const authInFileName: string
    const ackInFileName: string
    const outFileName: Option<string>

    /** `__init__`: an empty author list and the names of the files it works with. */
    constructor (authInFileName: string, ackInFileName: string, outFileName: Option<string>)
      ensures authorData == []
      ensures this.authInFileName == authInFileName && this.ackInFileName == ackInFileName
      ensures this.outFileName == outFileName
    {
      authorData := [];
      this.authInFileName := authInFileName;
      this.ackInFileName := ackInFileName;
      this.outFileName := outFileName;
    }

    /** `readAuthor`: skips the header row, then appends one tuple per data row, in
        file order, after whatever the list already held. A row with fewer than seven
        fields stops the read with the rows before it already appended. */
    method ReadAuthor(rows: seq<Row>) returns (err: Option<ReadError>)
      modifies this`authorData
      ensures |rows| == 0 ==> err == Some(EmptyFile) && authorData == old(authorData)
      ensures |rows| > 0 ==>
                var n := WellFormedPrefix(rows[1..]);
                && authorData == old(authorData) + AuthorsOfRows(rows[1..][..n])
                && err == (if n < |rows| - 1 then Some(ShortRow(n + 1)) else None)
    {
      if |rows| == 0 {
        return Some(EmptyFile);
      }
      var body := rows[1..];
      ghost var n := WellFormedPrefix(body);
      ghost var read := AuthorsOfRows(body[..n]);
      for k := 0 to |body|
        invariant k <= n
        invariant authorData == old(authorData) + read[..k]
      {
        var row := body[k];
        if |row| < 7 {
          assert k == n && read[..k] == read;
          return Some(ShortRow(k + 1));
        }
        assert k < n;
        var author := ReadRow(row);
        TakeSnoc(read, k);
        authorData := authorData + [author];
      }
      assert n == |body| && read[..|body|] == read;
      return None;
    }

    /** `sort_and_number_institutions`: walks the authors in order and each author's
        names in sorted order, giving every name the next number the first time it
        is met. Reads the author list and changes nothing. */
    method SortAndNumberInstitutions() returns (instDict: map<string, nat>)
      ensures Numbering(instDict, FirstAppearances(Walk(authorData)))
      ensures forall x :: x in instDict <==> NamedBySome(authorData, x)
    {
      var institutions: seq<string> := [];
      for e := 0 to |authorData|
        invariant institutions == Walk(authorData[..e])
      {
        var l := SplitInstitutions(authorData[e].institutions);
        institutions := AppendEach(institutions, SortStrings(l));
        WalkSnoc(authorData, e);
      }
      assert authorData[..|authorData|] == authorData;
      instDict := NumberInOrder(institutions);
      forall x ensures x in instDict <==> NamedBySome(authorData, x) {
        WalkNames(authorData, x);
      }
    }

    /** `get_author_institution_numbers`: the numbers of one author's institutions,
        one per brace group, ascending. A name the dictionary lacks is a KeyError
        naming the first such group. */
    method GetAuthorInstitutionNumbers(institution: string, instDict: map<string, nat>)
      returns (r: Result<seq<nat>, LookupError>)
      ensures var names := InstitutionNames(institution);
              r.Success? <==> forall name :: name in names ==> name in instDict
      ensures var names := InstitutionNames(institution);
              r.Failure? ==> exists k :: && 0 <= k < |names| && names[k] == r.error.name
                                         && names[k] !in instDict
                                         && forall j :: 0 <= j < k ==> names[j] in instDict
      ensures var names := InstitutionNames(institution);
              r.Success? ==> && Sorted(r.value, NatLeq)
                             && multiset(r.value) == multiset(Lookups(names, instDict))
    {
      var insts := SplitInstitutions(institution);
      var instNum: seq<nat> := [];
      for k := 0 to |insts|
        invariant forall j :: 0 <= j < k ==> insts[j] in instDict
        invariant instNum == Lookups(insts[..k], instDict)
      {
        if insts[k] !in instDict {
          assert 0 <= k < |insts| && insts[k] !in instDict;
          return Failure(KeyError(insts[k]));
        }
        LookupsSnoc(insts, instDict, k);
        instNum := instNum + [instDict[insts[k]]];
      }
      assert insts[..|insts|] == insts;
      return Success(SortNats(instNum));
    }
  }

  /** `get_author_institution_numbers` for author `e` against the numbering of the
      whole list: it succeeds, with the author's numbers in ascending order. */
  method InstitutionNumbers(list: TaAuth, instDict: map<string, nat>, e: nat) returns (instNum: seq<nat>)
    requires e < |list.authorData| && Numbering(instDict, Legend(list.authorData))
    ensures instNum == NumbersOf(list.authorData, e)
  {
    var authors := list.authorData;
    AuthorNamesNumbered(authors, e, instDict);
    var r := list.GetAuthorInstitutionNumbers(authors[e].institutions, instDict);
    assert r.Success?;
    LookupIsNumbersOf(authors, e, instDict, r.value);
    instNum := r.value;
  }
}
