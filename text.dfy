/** Strings built the way bytes.Buffer builds them, and the substring search of package strings. */
module Text {

  /** The elements of xs with sep between neighbours. */
  function Join(sep: string, xs: seq<string>): string
  {
    if |xs| == 0 then "" else if |xs| == 1 then xs[0] else xs[0] + sep + Join(sep, xs[1..])
  }

  /** The elements of xs, each followed by sep: what a loop that writes an item and then
      a separator leaves behind. */
  function Terminated(sep: string, xs: seq<string>): string
  {
    if xs == [] then "" else xs[0] + sep + Terminated(sep, xs[1..])
  }

  /** The elements of xs one after another. */
  function Concat(xs: seq<string>): string
  {
    if xs == [] then "" else xs[0] + Concat(xs[1..])
  }

  /** bytes.Buffer.Truncate(Len() - 1): the buffer without its last character. */
  function DropLast(s: string): (r: string)
    requires |s| > 0
    ensures |r| == |s| - 1 && r + [s[|s| - 1]] == s
  {
    s[..|s| - 1]
  }

  lemma {:induction false} TerminatedIsJoin(sep: string, xs: seq<string>)
    requires xs != []
    ensures Terminated(sep, xs) == Join(sep, xs) + sep
  {
    if |xs| > 1 {
      TerminatedIsJoin(sep, xs[1..]);
    }
  }

  /** Writing an opening text, then every item followed by a one-character separator,
      and truncating the last character leaves the items joined by that separator. */
  lemma DropTrailingSeparator(open: string, sep: char, xs: seq<string>)
    requires xs != []
    ensures DropLast(open + Terminated([sep], xs)) == open + Join([sep], xs)
  {
    TerminatedIsJoin([sep], xs);
    assert open + Terminated([sep], xs) == (open + Join([sep], xs)) + [sep];
  }

  /** pat occurs in s starting at position j. */
  predicate OccursAt(s: string, pat: string, j: int)
  {
    0 <= j && j + |pat| <= |s| && s[j..j + |pat|] == pat
  }

  /** The first occurrence of pat in s at or after position i, or -1. */
  function IndexFrom(s: string, pat: string, i: nat): (r: int)
    requires i <= |s|
    ensures r == -1 || (i <= r && OccursAt(s, pat, r))
    ensures r == -1 ==> forall j :: i <= j ==> !OccursAt(s, pat, j)
    ensures r != -1 ==> forall j :: i <= j < r ==> !OccursAt(s, pat, j)
    decreases |s| - i
  {
    if i + |pat| > |s| then -1
    else if s[i..i + |pat|] == pat then i
    else IndexFrom(s, pat, i + 1)
  }

  /** strings.Index: the first occurrence of pat in s, or -1. */
  function Index(s: string, pat: string): (r: int)
    ensures r == -1 <==> forall j :: !OccursAt(s, pat, j)
    ensures r != -1 ==> OccursAt(s, pat, r) && forall j :: 0 <= j < r ==> !OccursAt(s, pat, j)
  {
    IndexFrom(s, pat, 0)
  }

  /** strings.Contains. */
  predicate Contains(s: string, pat: string)
  {
    Index(s, pat) != -1
  }
}
