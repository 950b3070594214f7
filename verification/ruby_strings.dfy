/**
 * The Ruby string operations the star tag uses: `include?`, `split` with a
 * string separator (trailing empty fields dropped) and `join`.
 */
module RubyStrings {

  import opened Wrappers

  /** `sep` occurs in `s` starting at index `i`. */
  predicate OccursAt(s: string, sep: string, i: nat) {
    i + |sep| <= |s| && s[i..i + |sep|] == sep
  }

  /** Ruby's `s.include?(sub)`: the left-to-right search finds an occurrence. */
  predicate Includes(s: string, sub: string)
    ensures Includes(s, sub) <==> IndexFrom(s, sub, 0).Some?
  {
    exists i: nat :: i + |sub| <= |s| && OccursAt(s, sub, i)
  }

  /** The first index at or after `from` where `sep` occurs. */
  function IndexFrom(s: string, sep: string, from: nat): (r: Option<nat>)
    ensures r.Some? ==> from <= r.value && OccursAt(s, sep, r.value)
    ensures r.Some? ==> forall j: nat :: from <= j < r.value ==> !OccursAt(s, sep, j)
    ensures r.None? ==> forall j: nat :: from <= j ==> !OccursAt(s, sep, j)
    decreases |s| - from
  {
    if from + |sep| > |s| then None
    else if OccursAt(s, sep, from) then Some(from)
    else IndexFrom(s, sep, from + 1)
  }

  /**
   * All fields of `s` between the occurrences of `sep`, found left to right
   * without overlap, empty ones included.
   */
  function Fields(s: string, sep: string): (fs: seq<string>)
    requires |sep| > 0
    ensures |fs| >= 1
    decreases |s|
  {
    match IndexFrom(s, sep, 0)
    case None => [s]
    case Some(i) => [s[..i]] + Fields(s[i + |sep|..], sep)
  }

  /** Ruby's split without a limit drops the empty fields at the end. */
  function DropTrailingEmpty(parts: seq<string>): (r: seq<string>)
    ensures |r| <= |parts| && r == parts[..|r|]
    ensures |r| > 0 ==> r[|r| - 1] != ""
    ensures forall i :: |r| <= i < |parts| ==> parts[i] == ""
  {
    if |parts| > 0 && parts[|parts| - 1] == "" then DropTrailingEmpty(parts[..|parts| - 1]) else parts
  }

  /**
   * Ruby's `s.split(sep)` for a non-empty string separator other than a single
   * space (which Ruby treats as splitting on runs of whitespace): the fields with
   * the empty ones at the end removed. No field contains the separator.
   */
  function Split(s: string, sep: string): (fs: seq<string>)
    requires |sep| > 0
    ensures |fs| <= |Fields(s, sep)| && fs == Fields(s, sep)[..|fs|]
    ensures |fs| > 0 ==> fs[|fs| - 1] != ""
    ensures forall i :: |fs| <= i < |Fields(s, sep)| ==> Fields(s, sep)[i] == ""
    ensures forall f :: f in fs ==> !Includes(f, sep)
  {
    FieldsAvoidSeparator(s, sep);
    var fs := DropTrailingEmpty(Fields(s, sep));
    assert forall i :: 0 <= i < |fs| ==> fs[i] == Fields(s, sep)[i];
    fs
  }

  /** `t` is a suffix of `s`. */
  predicate EndsWith(s: string, t: string) {
    |t| <= |s| && s[|s| - |t|..] == t
  }

  /**
   * Ruby's `parts.join(sep)`: the result starts with the first part, ends with
   * the last, and has the separator right after the first part when there are
   * more.
   */
  function Join(parts: seq<string>, sep: string): (r: string)
    ensures |parts| == 0 ==> r == ""
    ensures |parts| > 0 ==> |parts[0]| <= |r| && r[..|parts[0]|] == parts[0]
    ensures |parts| > 0 ==> EndsWith(r, parts[|parts| - 1])
    ensures |parts| > 1 ==> OccursAt(r, sep, |parts[0]|)
  {
    if |parts| == 0 then ""
    else if |parts| == 1 then parts[0]
    else parts[0] + sep + Join(parts[1..], sep)
  }

  /** Two parts are joined with one separator between them. */
  lemma JoinPair(a: string, b: string, sep: string)
    ensures Join([a, b], sep) == a + sep + b
  {
    assert [a, b][1..] == [b];
  }

  /** Joining the fields with the separator gives back the string. */
  lemma {:induction false} JoinFields(s: string, sep: string)
    requires |sep| > 0
    ensures Join(Fields(s, sep), sep) == s
    decreases |s|
  {
    match IndexFrom(s, sep, 0)
    case None =>
    case Some(i) =>
      var rest := s[i + |sep|..];
      JoinFields(rest, sep);
      JoinCons(s[..i], Fields(rest, sep), sep);
      SplitAround(s, sep, i);
  }

  /** Joining a head and a non-empty tail puts one separator between them. */
  lemma JoinCons(head: string, tail: seq<string>, sep: string)
    requires |tail| >= 1
    ensures Join([head] + tail, sep) == head + sep + Join(tail, sep)
  {
    assert ([head] + tail)[1..] == tail;
  }

  /** A string is the text before an occurrence, the occurrence, and the text after. */
  lemma SplitAround(s: string, sep: string, i: nat)
    requires OccursAt(s, sep, i)
    ensures s == s[..i] + sep + s[i + |sep|..]
  {
    assert s == s[..i] + s[i..i + |sep|] + s[i + |sep|..];
  }

  /** No field contains the separator. */
  lemma {:induction false} FieldsAvoidSeparator(s: string, sep: string)
    requires |sep| > 0
    ensures forall f :: f in Fields(s, sep) ==> !Includes(f, sep)
    decreases |s|
  {
    match IndexFrom(s, sep, 0)
    case None =>
    case Some(i) =>
      FieldsAvoidSeparator(s[i + |sep|..], sep);
      var head := s[..i];
      forall j: nat | j + |sep| <= |head|
        ensures !OccursAt(head, sep, j)
      {
        assert j < i;
        assert !OccursAt(s, sep, j);
        assert head[j..j + |sep|] == s[j..j + |sep|];
      }
  }

  /** A string without the character `c` as a one-character separator. */
  lemma NoCharIsNoSeparator(f: string, c: char)
    ensures !Includes(f, [c]) <==> forall k :: 0 <= k < |f| ==> f[k] != c
  {
    if exists k :: 0 <= k < |f| && f[k] == c {
      var k :| 0 <= k < |f| && f[k] == c;
      assert OccursAt(f, [c], k);
    }
    if Includes(f, [c]) {
      var i: nat :| i + 1 <= |f| && OccursAt(f, [c], i);
      assert f[i] == f[i..i + 1][0];
    }
  }

  /**
   * The separator's first character does not occur again in it, so two of
   * its occurrences can never overlap.
   */
  predicate FirstCharUnique(sep: string) {
    |sep| > 0 && forall k :: 1 <= k < |sep| ==> sep[k] != sep[0]
  }

  /** Occurrences of a separator with a unique first character are at least its length apart. */
  lemma NoOverlap(s: string, sep: string, i: nat, j: nat)
    requires FirstCharUnique(sep)
    requires OccursAt(s, sep, i) && OccursAt(s, sep, j) && i < j
    ensures i + |sep| <= j
  {
    assert s[j..j + |sep|][0] == s[j];
  }

  /** Slicing a suffix is slicing the whole string, shifted. */
  lemma SuffixSlices(s: string, d: nat, a: nat, n: nat)
    requires d + a + n <= |s|
    ensures s[d..][a..a + n] == s[d + a..d + a + n]
    ensures s[d..][a + n..] == s[d + a + n..]
  {
  }

  /** The first occurrence is at or before any occurrence at `m`. */
  lemma FirstAtMost(s: string, sep: string, m: nat) returns (i: nat)
    requires OccursAt(s, sep, m)
    ensures IndexFrom(s, sep, 0) == Some(i) && i <= m
  {
    i := IndexFrom(s, sep, 0).value;
  }

  /** The last of a non-empty list of fields. */
  function Last(fs: seq<string>): string
    requires |fs| > 0
  {
    fs[|fs| - 1]
  }

  /** The last field is the last field of the text after the first occurrence. */
  lemma LastFieldStep(s: string, sep: string, i: nat)
    requires |sep| > 0 && IndexFrom(s, sep, 0) == Some(i)
    ensures Last(Fields(s, sep)) == Last(Fields(s[i + |sep|..], sep))
  {
    FieldsAt(s, sep, i);
    LastOfCons(s[..i], Fields(s[i + |sep|..], sep));
  }

  /** An occurrence with none before it (from `from` on) is the one the search finds. */
  lemma {:induction false} FirstOccurrence(s: string, sep: string, from: nat, i: nat)
    requires from <= i && OccursAt(s, sep, i)
    requires forall j: nat :: from <= j < i ==> !OccursAt(s, sep, j)
    ensures IndexFrom(s, sep, from) == Some(i)
    decreases i - from
  {
    if from < i {
      FirstOccurrence(s, sep, from + 1, i);
    }
  }

  /** When the last field is not empty, `split` keeps every field. */
  lemma SplitKeepsAll(s: string, sep: string)
    requires |sep| > 0 && Last(Fields(s, sep)) != ""
    ensures Split(s, sep) == Fields(s, sep)
  {
  }

  /** The fields are the text before the first occurrence, then the fields after it. */
  lemma FieldsAt(s: string, sep: string, i: nat)
    requires |sep| > 0 && IndexFrom(s, sep, 0) == Some(i)
    ensures Fields(s, sep) == [s[..i]] + Fields(s[i + |sep|..], sep)
  {
  }

  /** Putting a field in front keeps the last field. */
  lemma LastOfCons(x: string, t: seq<string>)
    requires |t| > 0
    ensures Last([x] + t) == Last(t)
  {
    assert ([x] + t)[|t|] == t[|t| - 1];
  }

  /** With no further occurrence after the first one, the text after it is the last field. */
  lemma LastFieldHere(s: string, sep: string, m: nat)
    requires |sep| > 0 && IndexFrom(s, sep, 0) == Some(m)
    requires IndexFrom(s[m + |sep|..], sep, 0).None?
    ensures Last(Fields(s, sep)) == s[m + |sep|..]
  {
    LastFieldStep(s, sep, m);
    assert Fields(s[m + |sep|..], sep) == [s[m + |sep|..]];
  }

  /**
   * A later occurrence at `m` is still an occurrence in the text after the
   * first one, with the same text after it.
   */
  lemma LaterOccurrence(s: string, sep: string, i: nat, m: nat)
    requires FirstCharUnique(sep)
    requires IndexFrom(s, sep, 0) == Some(i) && OccursAt(s, sep, m) && i < m
    ensures i + |sep| <= m
    ensures OccursAt(s[i + |sep|..], sep, m - i - |sep|)
    ensures s[i + |sep|..][m - i..] == s[m + |sep|..]
  {
    NoOverlap(s, sep, i, m);
    SuffixSlices(s, i + |sep|, m - i - |sep|, |sep|);
  }

  /**
   * When the last occurrence of the separator is at `m` (the text after it
   * holds none), the last field is that text.
   */
  lemma {:induction false} LastField(s: string, sep: string, m: nat)
    requires FirstCharUnique(sep)
    requires OccursAt(s, sep, m)
    requires IndexFrom(s[m + |sep|..], sep, 0).None?
    ensures Last(Fields(s, sep)) == s[m + |sep|..]
    decreases |s|
  {
    var i := FirstAtMost(s, sep, m);
    if i == m {
      LastFieldHere(s, sep, m);
    } else {
      LaterOccurrence(s, sep, i, m);
      LastFieldStep(s, sep, i);
      var rest, m' := s[i + |sep|..], m - i - |sep|;
      assert rest[m' + |sep|..] == s[m + |sep|..];
      LastField(rest, sep, m');
    }
  }
}
