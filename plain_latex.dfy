/** The plain LaTeX formatter (Author/formats/plain_latex.py): a header, one line
    per author with superscript institution numbers and a footnote symbol for a
    non-empty status, the numbered institution legend, and the status footnotes. */
module PlainLatex {
  import opened Text
  import opened BraceGroups
  import opened TaAuth

  const Header: seq<string> :=
    ["\\makeatletter", "\\newcommand{\\ssymbol[1]{^{\\@fnsymbol{#1}}}", "\\makeatother", "\\par\\noindent"]
  const LegendOpen: seq<string> := ["\\par\\noindent", "{\\footnotesize\\it"]
  const Footer: seq<string> :=
    ["\\addtocounter{footnote}{-1}\\let\\thefootnote\\svthefootnote", "}", "\\par\\noindent"]

  /** The non-empty statuses, in author order: the footnotes the formatter collects. */
  function Statuses(authors: seq<Author>): (s: seq<string>)
    ensures |s| <= |authors|
  {
    if authors == [] then []
    else
      var a := authors[|authors| - 1];
      Statuses(authors[..|authors| - 1]) + (if a.status != "" then [a.status] else [])
  }

  /** The value of the status counter once author `i` has been written. */
  function SymbolIndex(authors: seq<Author>, i: nat): nat
    requires i < |authors|
  {
    |Statuses(authors[..i + 1])|
  }

  /** The line for author `i`: numbered with the author's institutions and, when
      the author has a status, marked with the current footnote symbol. */
  function AuthorLine(authors: seq<Author>, i: nat): string
    requires i < |authors|
  {
    AuthorLineOf(authors[i], i == |authors| - 1, NumbersOf(authors, i), SymbolIndex(authors, i))
  }

  /** An author line from its parts; `last` selects the leading `and ` and drops
      the trailing comma. */
  function AuthorLineOf(a: Author, last: bool, nums: seq<nat>, symbol: nat): string {
    (if last then "and " else "") + a.initials + "~" + Replace(a.surname, ' ', '~') + "$^{"
      + NumberList(nums)
      + (if a.status != "" then "\\ssymbol{" + NatToString(symbol) + "}" else "")
      + "}$" + (if last then "" else ",")
  }

  function LegendLine(name: string, n: nat): string {
    "$^{" + NatToString(n) + "}$ " + name + " \\\\"
  }

  function FootnoteLine(k: nat, status: string): string {
    "\\let\\thefootnote\\relax\\footnote{$\\ssymbol{" + NatToString(k) + "}$ " + status + "}"
  }

  lemma {:induction false} StatusesPrefix(authors: seq<Author>, j: nat)
    requires j <= |authors|
    ensures Statuses(authors[..j]) <= Statuses(authors)
    decreases |authors| - j
  {
    if j < |authors| {
      StatusesPrefix(authors, j + 1);
      assert authors[..j + 1][..j] == authors[..j];
    } else {
      assert authors[..j] == authors;
    }
  }

  /** An author with a status is marked with symbol k, and footnote k carries that
      author's status. */
  lemma SymbolMatchesFootnote(authors: seq<Author>, i: nat)
    requires i < |authors| && authors[i].status != ""
    ensures 1 <= SymbolIndex(authors, i) <= |Statuses(authors)|
    ensures Statuses(authors)[SymbolIndex(authors, i) - 1] == authors[i].status
  {
    var pre := authors[..i + 1];
    assert pre[..i] == authors[..i];
    StatusesPrefix(authors, i + 1);
  }

  lemma StatusesSnoc(authors: seq<Author>, e: nat)
    requires e < |authors|
    ensures Statuses(authors[..e + 1]) ==
              Statuses(authors[..e]) + (if authors[e].status != "" then [authors[e].status] else [])
  {
    assert authors[..e + 1][..e] == authors[..e];
  }

  /** Symbols go up by one at each author with a status and stay put elsewhere, so
      the symbols are 1, 2, 3, ... in author order. */
  lemma SymbolsConsecutive(authors: seq<Author>, i: nat)
    requires 0 < i < |authors|
    ensures SymbolIndex(authors, i) ==
              SymbolIndex(authors, i - 1) + (if authors[i].status != "" then 1 else 0)
  {
    var pre := authors[..i + 1];
    assert pre[..i] == authors[..i];
  }

  /** Footnote k belongs to an author that is marked with symbol k + 1. */
  lemma {:induction false} FootnoteOwner(authors: seq<Author>, k: nat) returns (i: nat)
    requires k < |Statuses(authors)|
    ensures i < |authors| && authors[i].status != ""
    ensures SymbolIndex(authors, i) == k + 1 && Statuses(authors)[k] == authors[i].status
    decreases |authors|
  {
    var init := authors[..|authors| - 1];
    var a := authors[|authors| - 1];
    if k < |Statuses(init)| {
      i := FootnoteOwner(init, k);
      assert init[..i + 1] == authors[..i + 1];
      assert init[i] == authors[i];
    } else {
      i := |authors| - 1;
      assert authors[..i + 1] == authors;
    }
  }

  /** The separators of the author block: every line but the last starts with the
      initials and ends with a comma, and the last one starts with `and ` and ends
      the superscript. */
  lemma AuthorLineSeparators(a: Author, last: bool, nums: seq<nat>, symbol: nat)
    ensures var line := AuthorLineOf(a, last, nums, symbol);
            && (!last ==> line[..|a.initials|] == a.initials && line[|line| - 1] == ',')
            && (last ==> line[..4] == "and " && line[|line| - 2..] == "}$")
  {
  }

  /** The author block: line `i` is `AuthorLine(authors, i)`. */
  function AuthorLines(authors: seq<Author>): (r: seq<string>)
    ensures |r| == |authors|
  {
    seq(|authors|, i requires 0 <= i < |authors| => AuthorLine(authors, i))
  }

  /** The legend: line `k` gives institution `u[k]` its number `k + 1`. */
  function LegendLines(u: seq<string>): (r: seq<string>)
    ensures |r| == |u|
  {
    seq(|u|, k requires 0 <= k < |u| => LegendLine(u[k], k + 1))
  }

  /** The status footnotes: footnote `k + 1` carries status `s[k]`. */
  function FootnoteLines(s: seq<string>): (r: seq<string>)
    ensures |r| == |s|
  {
    seq(|s|, k requires 0 <= k < |s| => FootnoteLine(k + 1, s[k]))
  }

  /** The whole output of `plain_latex.dump` for an author list. */
  function Document(authors: seq<Author>): seq<string> {
    DocumentOf(AuthorLines(authors), Legend(authors), Statuses(authors))
  }

  /** The output from its parts: the author lines, the legend's institutions in
      numbered order, and the collected statuses. */
  function DocumentOf(authorLines: seq<string>, u: seq<string>, statuses: seq<string>): seq<string> {
    Header + authorLines + LegendOpen + LegendLines(u) + [""] + FootnoteLines(statuses) + Footer
  }

  /** Where each part of the output sits: author line `i` at line `4 + i`, legend
      line `k` numbering `u[k]` as `k + 1`, and footnote `k + 1` after the blank line. */
  lemma DocumentLayout(authorLines: seq<string>, u: seq<string>, statuses: seq<string>)
    ensures var doc := DocumentOf(authorLines, u, statuses);
            && |doc| == 10 + |authorLines| + |u| + |statuses|
            && (forall i :: 0 <= i < |authorLines| ==> doc[4 + i] == authorLines[i])
            && (forall k :: 0 <= k < |u| ==> doc[6 + |authorLines| + k] == LegendLine(u[k], k + 1))
            && (forall k :: 0 <= k < |statuses| ==>
                  doc[7 + |authorLines| + |u| + k] == FootnoteLine(k + 1, statuses[k]))
  {
    var legend, notes := LegendLines(u), FootnoteLines(statuses);
    forall i | 0 <= i < |authorLines|
      ensures DocumentOf(authorLines, u, statuses)[4 + i] == authorLines[i]
    {
      PartIndex(Header, [], [], authorLines, LegendOpen + legend + [""], notes, Footer, i);
      assert Header + [] + [] == Header;
    }
    forall k | 0 <= k < |u|
      ensures DocumentOf(authorLines, u, statuses)[6 + |authorLines| + k] == LegendLine(u[k], k + 1)
    {
      PartIndex(Header, authorLines, LegendOpen, legend, [""], notes, Footer, k);
    }
    forall k | 0 <= k < |statuses|
      ensures DocumentOf(authorLines, u, statuses)[7 + |authorLines| + |u| + k] == FootnoteLine(k + 1, statuses[k])
    {
      PartIndex(Header, authorLines, LegendOpen, legend, [""], notes, Footer, k);
    }
  }

  /** Where the fourth and the sixth of seven concatenated parts sit in the whole. */
  lemma PartIndex<T>(a: seq<T>, b: seq<T>, c: seq<T>, d: seq<T>, e: seq<T>, f: seq<T>, g: seq<T>, k: nat)
    ensures k < |d| ==> (a + b + c + d + e + f + g)[|a| + |b| + |c| + k] == d[k]
    ensures k < |f| ==> (a + b + c + d + e + f + g)[|a| + |b| + |c| + |d| + |e| + k] == f[k]
  {
  }

  /** The body of the author loop for author `a` with institution numbers `nums`:
      its line, and the status counter after it (`nstatus` is the counter before). */
  method WriteAuthor(a: Author, last: bool, nums: seq<nat>, nstatus: nat)
    returns (line: string, count: nat)
    ensures count == nstatus + (if a.status != "" then 1 else 0)
    ensures line == AuthorLineOf(a, last, nums, count)
  {
    line := "";
    if last {
      line := "and ";
    }
    var surname := Replace(a.surname, ' ', '~');
    line := line + a.initials + "~" + surname + "$^{";
    line := AppendNumbers(line, nums);
    count := nstatus;
    if a.status != "" {
      count := count + 1;
      line := line + ("\\ssymbol{" + NatToString(count) + "}");
    }
    line := line + "}$";
    if !last {
      line := line + ",";
    }
  }

  /** Author `e` of the list, given its institution numbers; `nstatus` counts the
      statuses of the authors before it. */
  method WriteAuthorAt(authors: seq<Author>, e: nat, nstatus: nat, instNum: seq<nat>)
    returns (line: string, count: nat)
    requires e < |authors| && instNum == NumbersOf(authors, e)
    requires nstatus == |Statuses(authors[..e])|
    ensures count == |Statuses(authors[..e + 1])|
    ensures line == AuthorLine(authors, e)
  {
    StatusesSnoc(authors, e);
    line, count := WriteAuthor(authors[e], e == |authors| - 1, instNum, nstatus);
  }

  /** The author loop of `dump`: the author lines and the statuses it collects. */
  method WriteAuthors(list: TaAuth, instDict: map<string, nat>)
    returns (lines: seq<string>, statusData: seq<string>)
    requires Numbering(instDict, Legend(list.authorData))
    ensures lines == AuthorLines(list.authorData)
    ensures statusData == Statuses(list.authorData)
  {
    var authors := list.authorData;
    lines := [];
    var nstatus := 0;
    statusData := [];
    ghost var all := AuthorLines(authors);
    for e := 0 to |authors|
      invariant statusData == Statuses(authors[..e]) && nstatus == |statusData|
      invariant lines == all[..e]
    {
      var instNum := InstitutionNumbers(list, instDict, e);
      var line;
      line, nstatus := WriteAuthorAt(authors, e, nstatus, instNum);
      assert authors[..e + 1][..e] == authors[..e];
      if authors[e].status != "" {
        statusData := statusData + [authors[e].status];
      }
      TakeSnoc(all, e);
      lines := lines + [line];
    }
    assert authors[..|authors|] == authors;
    assert all[..|authors|] == all;
  }

  /** The legend loop: the institutions in order of their numbers. */
  method WriteLegend(instDict: map<string, nat>, ghost u: seq<string>) returns (lines: seq<string>)
    requires Numbering(instDict, u)
    ensures lines == LegendLines(u)
  {
    var items := ItemsByNumber(instDict, u);
    ghost var all := LegendLines(u);
    lines := [];
    for k := 0 to |items|
      invariant lines == all[..k]
    {
      var (key, value) := items[k];
      var line := "$^{" + NatToString(value) + "}$ " + key + " \\\\";
      assert line == all[k];
      TakeSnoc(all, k);
      lines := lines + [line];
    }
    assert all[..|items|] == all;
  }

  /** The footnote loop: one footnote per collected status, numbered from 1. */
  method WriteFootnotes(statusData: seq<string>) returns (lines: seq<string>)
    ensures lines == FootnoteLines(statusData)
  {
    lines := [];
    for i := 0 to |statusData|
      invariant |lines| == i
      invariant forall j :: 0 <= j < i ==> lines[j] == FootnoteLine(j + 1, statusData[j])
    {
      lines := lines + [FootnoteLine(i + 1, statusData[i])];
    }
  }

  /** `plain_latex.dump`, with the printed lines returned in order. */
  method Dump(list: TaAuth) returns (out: seq<string>)
    ensures out == Document(list.authorData)
  {
    var instDict := list.SortAndNumberInstitutions();
    var authorLines, statusData := WriteAuthors(list, instDict);
    var legend := WriteLegend(instDict, Legend(list.authorData));
    var footnotes := WriteFootnotes(statusData);
    out := Header + authorLines + LegendOpen + legend + [""] + footnotes + Footer;
  }
}
