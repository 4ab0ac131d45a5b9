/** The formatter for the AASTeX 6.2 package (Author/formats/aastex.py): for every
    author an `\author` line (with the ORCID when there is one), an
    `\altaffiliation` line for a non-empty status, one `\affiliation` line per
    brace group of the institutions field, and a blank line. No numbering is used. */
module Aastex {
  import opened Text
  import opened BraceGroups
  import opened TaAuth

  function AuthorLine(a: Author): string {
    "\\author" + (if a.orcid != "" then "[" + a.orcid + "]" else "") + "{" + a.initials + " " + a.surname + "}"
  }

  function AffiliationLine(name: string): string {
    "\\affiliation{" + name + "}"
  }

  function AffiliationLines(names: seq<string>): (r: seq<string>)
    ensures |r| == |names|
  {
    seq(|names|, k requires 0 <= k < |names| => AffiliationLine(names[k]))
  }

  /** The lines printed for one author. */
  function Block(a: Author): seq<string> {
    [AuthorLine(a)]
      + (if a.status != "" then ["\\altaffiliation{" + a.status + "}"] else [])
      + AffiliationLines(InstitutionNames(a.institutions))
      + [""]
  }

  /** The whole output of `aastex.dump`: the authors' blocks in list order. */
  function Document(authors: seq<Author>): seq<string> {
    if authors == [] then [] else Document(authors[..|authors| - 1]) + Block(authors[|authors| - 1])
  }

  /** A block opens with the `\author` line, has one `\affiliation` line per brace
      group, and ends with a blank line. */
  lemma BlockShape(a: Author)
    ensures var b := Block(a);
            var names := InstitutionNames(a.institutions);
            var first := if a.status != "" then 2 else 1;
            && |b| == first + |names| + 1
            && b[0] == AuthorLine(a)
            && (a.status != "" ==> b[1] == "\\altaffiliation{" + a.status + "}")
            && (forall k :: 0 <= k < |names| ==> b[first + k] == AffiliationLine(names[k]))
            && b[|b| - 1] == ""
  {
  }

  /** How many of `lines` are blank. */
  function Blanks(lines: seq<string>): nat {
    if lines == [] then 0 else Blanks(lines[..|lines| - 1]) + (if lines[|lines| - 1] == "" then 1 else 0)
  }

  lemma {:induction false} BlanksAppend(x: seq<string>, y: seq<string>)
    ensures Blanks(x + y) == Blanks(x) + Blanks(y)
    decreases |y|
  {
    if y == [] {
      assert x + y == x;
    } else {
      var y' := y[..|y| - 1];
      BlanksAppend(x, y');
      assert (x + y)[..|x + y| - 1] == x + y';
    }
  }

  lemma {:induction false} NoBlanks(lines: seq<string>)
    requires forall k :: 0 <= k < |lines| ==> lines[k] != ""
    ensures Blanks(lines) == 0
  {
    if lines != [] {
      NoBlanks(lines[..|lines| - 1]);
    }
  }

  /** Only the line closing a block is blank: every other line starts with a
      backslash command, whatever the fields hold. */
  lemma BlockBlanks(a: Author)
    ensures Blanks(Block(a)) == 1
  {
    var head := [AuthorLine(a)] + (if a.status != "" then ["\\altaffiliation{" + a.status + "}"] else [])
                + AffiliationLines(InstitutionNames(a.institutions));
    forall k | 0 <= k < |head| ensures head[k] != "" {
      assert head[k][0] == '\\';
    }
    NoBlanks(head);
    BlanksAppend(head, [""]);
    assert [""][..0] == [];
  }

  /** The blank lines split the output into the authors' blocks: there is exactly
      one per author. */
  lemma {:induction false} DocumentBlanks(authors: seq<Author>)
    ensures Blanks(Document(authors)) == |authors|
  {
    if authors != [] {
      var init := authors[..|authors| - 1];
      DocumentBlanks(init);
      BlanksAppend(Document(init), Block(authors[|authors| - 1]));
      BlockBlanks(authors[|authors| - 1]);
    }
  }

  /** A field written as brace groups gives one `\affiliation` line per name written,
      in order, whatever number of spaces separates each pair of groups. */
  lemma AffiliationsOfBraceField(a: Author, names: seq<string>, gaps: seq<nat>)
    requires |names| >= 1 && |gaps| == |names| - 1
    requires forall name :: name in names ==> BraceFree(name)
    requires a.institutions == BraceField(names, gaps)
    ensures AffiliationLines(InstitutionNames(a.institutions)) == AffiliationLines(names)
  {
    BraceFieldRoundTrip(names, gaps);
  }

  /** The affiliations printed for an author are institutions the numbering
      formatters list: every one of them is in the legend. */
  lemma AffiliationsInLegend(authors: seq<Author>, i: nat, k: nat)
    requires i < |authors| && k < |InstitutionNames(authors[i].institutions)|
    ensures InstitutionNames(authors[i].institutions)[k] in Legend(authors)
  {
    WalkCovers(authors, i);
  }

  /** The inner loop: one `\affiliation` line per brace group, each group with its
      braces stripped. */
  method WriteAffiliations(institution: string) returns (lines: seq<string>)
    ensures lines == AffiliationLines(InstitutionNames(institution))
  {
    var groups := SplitGroups(institution);
    lines := [];
    for k := 0 to |groups|
      invariant |lines| == k
      invariant forall j :: 0 <= j < k ==> lines[j] == AffiliationLine(Strip(groups[j], Braces))
    {
      var inst := Strip(groups[k], Braces);
      lines := lines + ["\\affiliation{" + inst + "}"];
    }
    forall j | 0 <= j < |groups| ensures lines[j] == AffiliationLine(InstitutionNames(institution)[j]) {
      StripEachAt(groups, j);
    }
  }

  /** The lines of one author, in the order `dump` prints them. */
  method WriteBlock(a: Author) returns (lines: seq<string>)
    ensures lines == Block(a)
  {
    var line := "\\author";
    if a.orcid != "" {
      line := line + ("[" + a.orcid + "]");
    }
    line := line + "{" + a.initials + " " + a.surname + "}";
    assert line == AuthorLine(a);
    lines := [line];
    if a.status != "" {
      line := "\\altaffiliation{" + a.status + "}";
      lines := lines + [line];
    }
    var affiliations := WriteAffiliations(a.institutions);
    lines := lines + affiliations;
    lines := lines + [""];
  }

  /** `aastex.dump`, with the printed lines returned in order. */
  method Dump(list: TaAuth) returns (out: seq<string>)
    ensures out == Document(list.authorData)
  {
    var authors := list.authorData;
    out := [];
    for e := 0 to |authors|
      invariant out == Document(authors[..e])
    {
      var block := WriteBlock(authors[e]);
      assert authors[..e + 1][..e] == authors[..e];
      out := out + block;
    }
    assert authors[..|authors|] == authors;
  }
}
