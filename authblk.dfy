/** The formatter for the LaTeX `authblk` package (Author/formats/authblk.py): a
    package hint, one `\author[numbers]{...}` line per author, then one
    `\affil[n]{...}` line per institution in numbered order. */
module Authblk {
  import opened Text
  import opened BraceGroups
  import opened TaAuth

  const Header: seq<string> :=
    ["\\usepackage[affil-it]{authblk}", "\\renewcommand\\Affilfont{\\itshape\\footnotesize}"]

  /** An author line from its parts: the institution numbers in brackets, the name,
      and the status as a footnote when there is one. */
  function AuthorLineOf(a: Author, nums: seq<nat>): string {
    "\\author[" + NumberList(nums) + "]{" + a.initials + "~" + a.surname
      + (if a.status != "" then "\\footnote{" + a.status + "}" else "") + "}"
  }

  function AffilLine(name: string, n: nat): string {
    "\\affil[" + NatToString(n) + "]{" + name + "}"
  }

  /** The author lines: line `i` carries the numbers of author `i`'s institutions. */
  function AuthorLines(authors: seq<Author>): (r: seq<string>)
    ensures |r| == |authors|
  {
    seq(|authors|, i requires 0 <= i < |authors| => AuthorLineOf(authors[i], NumbersOf(authors, i)))
  }

  /** The affiliations: line `k` gives institution `u[k]` its number `k + 1`. */
  function AffilLines(u: seq<string>): (r: seq<string>)
    ensures |r| == |u|
  {
    seq(|u|, k requires 0 <= k < |u| => AffilLine(u[k], k + 1))
  }

  /** The whole output of `authblk.dump` for an author list. */
  function Document(authors: seq<Author>): seq<string> {
    DocumentOf(AuthorLines(authors), Legend(authors))
  }

  function DocumentOf(authorLines: seq<string>, u: seq<string>): seq<string> {
    Header + authorLines + AffilLines(u)
  }

  /** The two package lines come first, author line `i` is line `2 + i`, and the
      affiliation numbering `u[k]` as `k + 1` follows the last author. */
  lemma DocumentLayout(authorLines: seq<string>, u: seq<string>)
    ensures var doc := DocumentOf(authorLines, u);
            && |doc| == 2 + |authorLines| + |u|
            && doc[..2] == Header
            && (forall i :: 0 <= i < |authorLines| ==> doc[2 + i] == authorLines[i])
            && (forall k :: 0 <= k < |u| ==> doc[2 + |authorLines| + k] == AffilLine(u[k], k + 1))
  {
    var doc := DocumentOf(authorLines, u);
    var affils := AffilLines(u);
    forall k | 0 <= k < |u| ensures doc[2 + |authorLines| + k] == AffilLine(u[k], k + 1) {
      assert doc[2 + |authorLines| + k] == affils[k];
    }
  }

  /** Each number in an author's bracket points at an affiliation line, and the
      institution on that line is one of the author's own. */
  lemma AffiliationOfNumber(authors: seq<Author>, i: nat, n: nat)
    requires i < |authors| && n in NumbersOf(authors, i)
    ensures 1 <= n <= |Legend(authors)|
    ensures var name := Legend(authors)[n - 1];
            && AffilLines(Legend(authors))[n - 1] == AffilLine(name, n)
            && name in InstitutionNames(authors[i].institutions)
  {
    AuthorNumberResolves(authors, i, n);
    AffilLineAt(Legend(authors), n);
  }

  lemma AffilLineAt(u: seq<string>, n: nat)
    requires 1 <= n <= |u|
    ensures AffilLines(u)[n - 1] == AffilLine(u[n - 1], n)
  {
  }

  /** The body of the author loop: the line for author `a` with numbers `nums`. */
  method WriteAuthor(a: Author, nums: seq<nat>) returns (line: string)
    ensures line == AuthorLineOf(a, nums)
  {
    line := "\\author[";
    line := AppendNumbers(line, nums);
    line := line + "]{" + a.initials + "~" + a.surname;
    if a.status != "" {
      line := line + ("\\footnote{" + a.status + "}");
    }
    line := line + "}";
  }

  /** The author loop of `dump`. */
  method WriteAuthors(list: TaAuth, instDict: map<string, nat>) returns (lines: seq<string>)
    requires Numbering(instDict, Legend(list.authorData))
    ensures lines == AuthorLines(list.authorData)
  {
    var authors := list.authorData;
    ghost var all := AuthorLines(authors);
    lines := [];
    for e := 0 to |authors|
      invariant lines == all[..e]
    {
      var instNum := InstitutionNumbers(list, instDict, e);
      var line := WriteAuthor(authors[e], instNum);
      TakeSnoc(all, e);
      lines := lines + [line];
    }
    assert all[..|authors|] == all;
  }

  /** The affiliation loop: the institutions in order of their numbers. */
  method WriteAffiliations(instDict: map<string, nat>, ghost u: seq<string>) returns (lines: seq<string>)
    requires Numbering(instDict, u)
    ensures lines == AffilLines(u)
  {
    var items := ItemsByNumber(instDict, u);
    ghost var all := AffilLines(u);
    lines := [];
    for k := 0 to |items|
      invariant lines == all[..k]
    {
      var (key, value) := items[k];
      var line := "\\affil[" + NatToString(value) + "]{" + key + "}";
      assert line == all[k];
      TakeSnoc(all, k);
      lines := lines + [line];
    }
    assert all[..|items|] == all;
  }

  /** `authblk.dump`, with the printed lines returned in order. */
  method Dump(list: TaAuth) returns (out: seq<string>)
    ensures out == Document(list.authorData)
  {
    var instDict := list.SortAndNumberInstitutions();
    var authorLines := WriteAuthors(list, instDict);
    var affils := WriteAffiliations(instDict, Legend(list.authorData));
    out := Header + authorLines + affils;
  }
}
