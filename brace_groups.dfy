/** The institutions field of an author row, written as brace groups such as
    `{Univ. A} {Univ. B}`, and how the code takes it apart: `re.split('\} *\{', field)`
    followed by `strip('{}')` on every piece (ta_auth.py lines 84-85 and 134-135,
    aastex.py lines 36-37). */
module BraceGroups {
  import opened Wrappers
  import opened Text

  const Braces: set<char> := {'{', '}'}

  /** The first position at or after `k` that does not hold a space (`|s|` if none). */
  function SpacesEnd(s: string, k: nat): (j: nat)
    requires k <= |s|
    ensures k <= j <= |s|
    ensures forall m :: k <= m < j ==> s[m] == ' '
    ensures j == |s| || s[j] != ' '
    decreases |s| - k
  {
    if k == |s| || s[k] != ' ' then k else SpacesEnd(s, k + 1)
  }

  /** The pattern `\} *\{` matches at position `i`: a `}`, any run of spaces, a `{`. */
  predicate SeparatorAt(s: string, i: nat) {
    i < |s| && s[i] == '}' && SpacesEnd(s, i + 1) < |s| && s[SpacesEnd(s, i + 1)] == '{'
  }

  /** The leftmost match of the pattern at or after `i`, as (start, end); the
      pattern's space run is greedy, so a match ends just after its `{`. */
  function FirstSeparatorFrom(s: string, i: nat): (r: Option<(nat, nat)>)
    requires i <= |s|
    ensures r.Some? ==> && i <= r.value.0 < r.value.1 <= |s|
                        && SeparatorAt(s, r.value.0)
                        && r.value.1 == SpacesEnd(s, r.value.0 + 1) + 1
                        && forall k :: i <= k < r.value.0 ==> !SeparatorAt(s, k)
    ensures r.None? ==> forall k :: i <= k < |s| ==> !SeparatorAt(s, k)
    decreases |s| - i
  {
    if i == |s| then None
    else if SeparatorAt(s, i) then Some((i, SpacesEnd(s, i + 1) + 1))
    else FirstSeparatorFrom(s, i + 1)
  }

  /** `re.split('\} *\{', s)`: the pieces between successive leftmost matches. */
  function SplitGroups(s: string): (r: seq<string>)
    ensures |r| >= 1
    decreases |s|
  {
    match FirstSeparatorFrom(s, 0)
    case None => [s]
    case Some((i, j)) => [s[..i]] + SplitGroups(s[j..])
  }

  /** `m.strip('{}')` applied to every piece. */
  function StripEach(groups: seq<string>): (r: seq<string>)
    ensures |r| == |groups|
  {
    if groups == [] then [] else [Strip(groups[0], Braces)] + StripEach(groups[1..])
  }

  /** Piece `k` of the result is piece `k` of the input, stripped. */
  lemma {:induction false} StripEachAt(groups: seq<string>, k: nat)
    requires k < |groups|
    ensures StripEach(groups)[k] == Strip(groups[k], Braces)
    decreases k
  {
    if k > 0 {
      StripEachAt(groups[1..], k - 1);
    }
  }

  /** The institution names of a field, in the order they are written. */
  function InstitutionNames(field: string): (r: seq<string>)
    ensures |r| >= 1
  {
    StripEach(SplitGroups(field))
  }

  /** A field with no `}`-spaces-`{` separator is one name, its outer braces cut. */
  lemma SingleGroup(field: string)
    requires forall k :: 0 <= k < |field| ==> !SeparatorAt(field, k)
    ensures InstitutionNames(field) == [Strip(field, Braces)]
  {
    assert FirstSeparatorFrom(field, 0).None?;
  }

  predicate BraceFree(name: string) {
    '{' !in name && '}' !in name
  }

  function Spaces(n: nat): (r: string)
    ensures |r| == n && forall k :: 0 <= k < n ==> r[k] == ' '
  {
    if n == 0 then "" else Spaces(n - 1) + " "
  }

  /** A field as the author spreadsheet writes it: every name in braces, and
      `gaps[k]` spaces between group `k` and group `k + 1` (`{A} {B}{C}` has gaps
      `[1, 0]`). */
  function BraceField(names: seq<string>, gaps: seq<nat>): string
    requires |names| >= 1 && |gaps| == |names| - 1
  {
    "{" + FieldBody(names, gaps)
  }

  /** `BraceField` without its opening brace. */
  function FieldBody(names: seq<string>, gaps: seq<nat>): string
    requires |names| >= 1 && |gaps| == |names| - 1
  {
    if |names| == 1 then names[0] + "}"
    else names[0] + "}" + Spaces(gaps[0]) + "{" + FieldBody(names[1..], gaps[1..])
  }

  /** A piece with no `}` followed by a lone closing brace holds no separator. */
  lemma SplitLastGroup(x: string)
    requires '}' !in x
    ensures SplitGroups(x + "}") == [x + "}"]
  {
    var s := x + "}";
    forall k | 0 <= k < |s| ensures !SeparatorAt(s, k) {
      if k < |x| { assert s[k] == x[k]; }
    }
    assert FirstSeparatorFrom(s, 0).None?;
  }

  /** The first separator of `x}  {t` sits right after `x` when `x` has no `}`. */
  lemma SplitAfterGroup(x: string, gap: nat, t: string)
    requires '}' !in x
    ensures SplitGroups(x + "}" + Spaces(gap) + "{" + t) == [x] + SplitGroups(t)
  {
    var s := x + "}" + Spaces(gap) + "{" + t;
    var n := |x|;
    forall k | 0 <= k < n ensures !SeparatorAt(s, k) {
      assert s[k] == x[k];
    }
    assert forall m :: n + 1 <= m < n + 1 + gap ==> s[m] == ' ';
    assert s[n + 1 + gap] == '{';
    assert SpacesEnd(s, n + 1) == n + 1 + gap;
    assert SeparatorAt(s, n);
    var r := FirstSeparatorFrom(s, 0);
    assert r == Some((n, n + gap + 2));
    assert s[..n] == x;
    assert s[n + gap + 2..] == t;
  }

  lemma StripBraced(q: string, name: string, close: string)
    requires q == "" || q == "{"
    requires close == "" || close == "}"
    requires BraceFree(name)
    ensures Strip(q + name + close, Braces) == name
  {
    StripPadded(q, name, close, Braces);
  }

  lemma OpenedName(q: string, name: string)
    requires q == "" || q == "{"
    requires BraceFree(name)
    ensures '}' !in q + name
  {
    var x := q + name;
    forall k | 0 <= k < |x| ensures x[k] != '}' {
      if k < |q| { assert x[k] == q[k]; } else { assert x[k] == name[k - |q|]; }
    }
  }

  lemma SplitFieldBodyLast(q: string, name: string)
    requires q == "" || q == "{"
    requires BraceFree(name)
    ensures StripEach(SplitGroups(q + FieldBody([name], []))) == [name]
    ensures q == "" ==> StripEach(SplitGroups(FieldBody([name], []))) == [name]
  {
    var x := q + name;
    var s := q + FieldBody([name], []);
    OpenedName(q, name);
    assert s == x + "}";
    SplitLastGroup(x);
    StripBraced(q, name, "}");
    StripEachSingle(s);
    if q == "" {
      assert s == FieldBody([name], []);
    }
  }

  lemma StripEachSingle(g: string)
    ensures StripEach([g]) == [Strip(g, Braces)]
  {
    assert [g][1..] == [];
  }

  lemma SplitFieldBodyStep(q: string, names: seq<string>, gaps: seq<nat>)
    requires q == "" || q == "{"
    requires |names| >= 2 && |gaps| == |names| - 1 && BraceFree(names[0])
    ensures StripEach(SplitGroups(q + FieldBody(names, gaps)))
            == [names[0]] + StripEach(SplitGroups(FieldBody(names[1..], gaps[1..])))
    ensures q == "" ==> StripEach(SplitGroups(FieldBody(names, gaps)))
                        == [names[0]] + StripEach(SplitGroups(FieldBody(names[1..], gaps[1..])))
  {
    var x := q + names[0];
    OpenedName(q, names[0]);
    var rest := FieldBody(names[1..], gaps[1..]);
    var s := q + FieldBody(names, gaps);
    assert s == x + "}" + Spaces(gaps[0]) + "{" + rest;
    SplitAfterGroup(x, gaps[0], rest);
    StripBraced(q, names[0], "");
    assert x + "" == x;
    var groups := [x] + SplitGroups(rest);
    assert groups[0] == x && groups[1..] == SplitGroups(rest);
    if q == "" {
      assert s == FieldBody(names, gaps);
    }
  }

  lemma {:induction false} FieldBodyNames(names: seq<string>, gaps: seq<nat>)
    requires |names| >= 1 && |gaps| == |names| - 1
    requires forall name :: name in names ==> BraceFree(name)
    ensures StripEach(SplitGroups(FieldBody(names, gaps))) == names
    decreases |names|
  {
    if |names| == 1 {
      SplitFieldBodyLast("", names[0]);
      assert names == [names[0]];
    } else {
      var tail := names[1..];
      FieldBodyNames(tail, gaps[1..]);
      SplitFieldBodyStep("", names, gaps);
      HeadTail(names);
    }
  }

  /** Reading back a field written as brace groups gives the names written, in order,
      whatever number of spaces separates each pair of neighbouring groups. */
  lemma BraceFieldRoundTrip(names: seq<string>, gaps: seq<nat>)
    requires |names| >= 1 && |gaps| == |names| - 1
    requires forall name :: name in names ==> BraceFree(name)
    ensures InstitutionNames(BraceField(names, gaps)) == names
  {
    if |names| == 1 {
      SplitFieldBodyLast("{", names[0]);
    } else {
      var tail := names[1..];
      FieldBodyNames(tail, gaps[1..]);
      var tailNames := StripEach(SplitGroups(FieldBody(tail, gaps[1..])));
      SplitFieldBodyStep("{", names, gaps);
      assert InstitutionNames(BraceField(names, gaps)) == [names[0]] + tailNames;
      assert names == [names[0]] + tail;
    }
  }
}
