/** The formatter for arXiv author fields (Author/formats/arxiv.py): a single line
    naming the collaboration, every author with the institution numbers in
    parentheses, and the numbered institutions in parentheses at the end. */
module Arxiv {
  import opened Text
  import opened BraceGroups
  import opened TaAuth

  const Collaboration: string := "Telescope Array Collaboration: "

  /** One author in the line: name, then the institution numbers in parentheses. */
  function Segment(a: Author, nums: seq<nat>): string {
    a.initials + " " + a.surname + " (" + NumberList(nums) + ")"
  }

  /** One institution in the closing list. */
  function Entry(name: string, n: nat): string {
    "(" + NatToString(n) + ") " + name
  }

  function Segments(authors: seq<Author>): (r: seq<string>)
    ensures |r| == |authors|
  {
    seq(|authors|, i requires 0 <= i < |authors| => Segment(authors[i], NumbersOf(authors, i)))
  }

  function Entries(u: seq<string>): (r: seq<string>)
    ensures |r| == |u|
  {
    seq(|u|, k requires 0 <= k < |u| => Entry(u[k], k + 1))
  }

  /** The line `arxiv.dump` prints: the authors separated by `, `, then the
      institutions separated by `, ` inside one pair of parentheses. */
  function ArxivLine(authors: seq<Author>): string {
    LineOf(Segments(authors), Entries(Legend(authors)))
  }

  function LineOf(segments: seq<string>, entries: seq<string>): string {
    Collaboration + Join(segments, ", ") + " (" + Join(entries, ", ") + ")"
  }

  /** The line opens with the collaboration name, and the institution list is
      the last thing on it, closed by `)`. */
  lemma LineShape(segments: seq<string>, entries: seq<string>)
    ensures var line := LineOf(segments, entries);
            var k := |Collaboration| + |Join(segments, ", ")|;
            && |line| == k + 3 + |Join(entries, ", ")|
            && line[..|Collaboration|] == Collaboration
            && line[k..k + 2] == " ("
            && line[k + 2..|line| - 1] == Join(entries, ", ")
            && line[|line| - 1] == ')'
  {
  }

  /** The line depends on each author's initials, surname and institutions only:
      the status and ORCID columns are not printed. */
  lemma LineIgnoresStatus(a: seq<Author>, b: seq<Author>)
    requires |a| == |b|
    requires forall i :: 0 <= i < |a| ==>
               && a[i].initials == b[i].initials && a[i].surname == b[i].surname
               && a[i].institutions == b[i].institutions
    ensures ArxivLine(a) == ArxivLine(b)
  {
    NumbersOnlyInstitutions(a, b);
    assert Segments(a) == Segments(b);
  }

  /** The body of the author loop: author `a` with institution numbers `nums`. */
  method WriteSegment(a: Author, nums: seq<nat>) returns (segment: string)
    ensures segment == Segment(a, nums)
  {
    segment := a.initials + " " + a.surname + " (";
    segment := AppendNumbers(segment, nums);
    segment := segment + ")";
  }

  /** Segment `e` of the line, given author `e`'s institution numbers. */
  method WriteSegmentAt(authors: seq<Author>, e: nat, instNum: seq<nat>) returns (segment: string)
    requires e < |authors| && instNum == NumbersOf(authors, e)
    ensures segment == Segments(authors)[e]
  {
    segment := WriteSegment(authors[e], instNum);
  }

  /** The author loop: appends the authors to `line`, separated by `, `. */
  method AppendAuthors(list: TaAuth, instDict: map<string, nat>, line: string) returns (r: string)
    requires Numbering(instDict, Legend(list.authorData))
    ensures r == line + Join(Segments(list.authorData), ", ")
  {
    var authors := list.authorData;
    ghost var segments := Segments(authors);
    var authnum := 1;
    r := line;
    for e := 0 to |authors|
      invariant authnum == e + 1
      invariant r == line + JoinPrefix(segments, ", ", e)
    {
      var instNum := InstitutionNumbers(list, instDict, e);
      var segment := WriteSegmentAt(authors, e, instNum);
      JoinPrefixStep(line, segments, ", ", e);
      r := r + segment;
      if authnum != |authors| {
        r := r + ", ";
      }
      authnum := authnum + 1;
    }
    JoinPrefixComplete(segments, ", ");
  }

  /** The institution loop: appends the institutions in numbered order to `line`,
      separated by `, `. */
  method AppendInstitutions(instDict: map<string, nat>, ghost u: seq<string>, line: string) returns (r: string)
    requires Numbering(instDict, u)
    ensures r == line + Join(Entries(u), ", ")
  {
    ghost var entries := Entries(u);
    var items := ItemsByNumber(instDict, u);
    var instCount := 1;
    r := line;
    for k := 0 to |items|
      invariant instCount == k + 1
      invariant r == line + JoinPrefix(entries, ", ", k)
    {
      var (key, value) := items[k];
      var entry := "(" + NatToString(value) + ") " + key;
      assert entry == entries[k];
      JoinPrefixStep(line, entries, ", ", k);
      r := r + entry;
      if instCount != |instDict| {
        r := r + ", ";
      }
      instCount := instCount + 1;
    }
    JoinPrefixComplete(entries, ", ");
  }

  /** `arxiv.dump`, with the one printed line returned. */
  method Dump(list: TaAuth) returns (out: seq<string>)
    ensures out == [ArxivLine(list.authorData)]
  {
    var instDict := list.SortAndNumberInstitutions();
    var line := Collaboration;
    line := AppendAuthors(list, instDict, line);
    line := line + " (";
    line := AppendInstitutions(instDict, Legend(list.authorData), line);
    line := line + ")";
    out := [line];
  }
}
