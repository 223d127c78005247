/** The string helpers the loader applies to tweet fields before storing them. */
module Strings {

  import opened Wrappers

  /** The character PostgreSQL cannot store in a text column. */
  const NUL: char := '\0'

  /** `s.replace('\x00', '')`: every null character deleted, every other character kept. */
  function StripNulls(s: string): (r: string)
    ensures NUL !in r
  {
    if s == [] then []
    else
      assert s == [s[0]] + s[1..];
      if s[0] == NUL then StripNulls(s[1..]) else [s[0]] + StripNulls(s[1..])
  }

  /** Stripping removes every null character and keeps every other character with its multiplicity. */
  lemma {:induction false} StripNullsCounts(s: string)
    ensures multiset(StripNulls(s)) == multiset(s)[NUL := 0]
  {
    if s != [] {
      assert s == [s[0]] + s[1..];
      StripNullsCounts(s[1..]);
    }
  }

  /** `remove_nulls`: None stays None, a string loses its null characters. */
  function RemoveNulls(s: Option<string>): (r: Option<string>)
    ensures r.None? <==> s.None?
    ensures r.Some? ==> NUL !in r.value
  {
    match s
    case None => None
    case Some(v) => Some(StripNulls(v))
  }

  /** Stripping distributes over concatenation, so the kept characters stay in their order. */
  lemma {:induction false} StripNullsAppend(a: string, b: string)
    ensures StripNulls(a + b) == StripNulls(a) + StripNulls(b)
  {
    if a == [] {
      assert a + b == b;
    } else {
      assert (a + b)[0] == a[0];
      assert (a + b)[1..] == a[1..] + b;
      StripNullsAppend(a[1..], b);
    }
  }

  /** A string without null characters is left exactly as it is. */
  lemma {:induction false} StripNullsKeepsClean(s: string)
    requires NUL !in s
    ensures StripNulls(s) == s
  {
    if s != [] {
      assert s[1..] == s[|s|..] || NUL !in s[1..];
      StripNullsKeepsClean(s[1..]);
    }
  }

  /** Applying `remove_nulls` twice is the same as applying it once. */
  lemma RemoveNullsIdempotent(s: Option<string>)
    ensures RemoveNulls(RemoveNulls(s)) == RemoveNulls(s)
  {
    if s.Some? {
      StripNullsKeepsClean(StripNulls(s.value));
    }
  }

  /** A single null character between two clean strings is dropped and nothing else changes. */
  lemma {:induction false} StripNullsBetween(head: string, tail: string)
    requires NUL !in head && NUL !in tail
    ensures StripNulls(head + [NUL] + tail) == head + tail
  {
    StripNullsKeepsClean(head);
    StripNullsKeepsClean(tail);
    assert head + [NUL] + tail == head + ([NUL] + tail);
    StripNullsAppend(head, [NUL] + tail);
    assert ([NUL] + tail)[1..] == tail;
  }

  /** The examples of the function's documentation: a lone null character, and one inside a phrase. */
  lemma RemoveNullsExamples(lone: string, phrase: string)
    requires lone == "\0" && phrase == "hello\0 world"
    ensures RemoveNulls(Some(lone)) == Some("")
    ensures RemoveNulls(Some(phrase)) == Some("hello world")
  {
    StripNullsBetween([], []);
    assert lone == [] + [NUL] + [];
    var head, tail := phrase[..5], phrase[6..];
    assert phrase == head + [NUL] + tail;
    assert NUL !in head && NUL !in tail;
    StripNullsBetween(head, tail);
    assert head + tail == "hello world";
  }

  /** ASCII upper-case letters. */
  predicate IsUpper(c: char) {
    'A' <= c <= 'Z'
  }

  /** `str.lower` on one character, restricted to ASCII letters. */
  function LowerChar(c: char): char {
    if IsUpper(c) then (c as int + 32) as char else c
  }

  /** `a` and `b` have the same length and agree up to letter case. */
  predicate SameIgnoringCase(a: string, b: string) {
    |a| == |b| && forall i :: 0 <= i < |a| ==> LowerChar(a[i]) == LowerChar(b[i])
  }

  predicate NoUpper(s: string) {
    forall i :: 0 <= i < |s| ==> !IsUpper(s[i])
  }

  /** `s.lower()`: the string that equals `s` up to case and has no upper-case letter. */
  function Lower(s: string): (r: string)
    ensures SameIgnoringCase(r, s)
    ensures NoUpper(r)
  {
    seq(|s|, i requires 0 <= i < |s| => LowerChar(s[i]))
  }

  /** The two properties of `Lower` determine its result. */
  lemma LowerUnique(s: string, r: string)
    requires SameIgnoringCase(r, s) && NoUpper(r)
    ensures r == Lower(s)
  {
    forall i | 0 <= i < |r|
      ensures r[i] == Lower(s)[i]
    {
      assert LowerChar(r[i]) == r[i];
    }
  }

  /** Lower-casing twice is lower-casing once. */
  lemma LowerIdempotent(s: string)
    ensures Lower(Lower(s)) == Lower(s)
  {
    LowerUnique(Lower(s), Lower(s));
  }

  /** Lower-casing changes only upper-case letters, and turns no other character into a space or a comma. */
  lemma LowerKeepsOthers(s: string)
    ensures forall i :: 0 <= i < |s| && !IsUpper(s[i]) ==> Lower(s)[i] == s[i]
    ensures forall i :: 0 <= i < |s| ==> (IsSpace(Lower(s)[i]) <==> IsSpace(s[i]))
    ensures ',' in Lower(s) ==> ',' in s
  {
    if ',' in Lower(s) {
      var i :| 0 <= i < |s| && Lower(s)[i] == ',';
      assert s[i] == ',';
    }
  }

  /** The characters for which Python's `str.isspace` holds. */
  predicate IsSpace(c: char) {
    var n := c as int;
    n == 0x20 || 0x09 <= n <= 0x0D || 0x1C <= n <= 0x1F || n == 0x85 || n == 0xA0
    || n == 0x1680 || 0x2000 <= n <= 0x200A || n == 0x2028 || n == 0x2029
    || n == 0x202F || n == 0x205F || n == 0x3000
  }

  /** `s.lstrip()`: the suffix of `s` that starts at its first non-space character. */
  function TrimLeft(s: string): (r: string)
    ensures |r| <= |s| && r == s[|s| - |r|..]
    ensures forall k :: 0 <= k < |s| - |r| ==> IsSpace(s[k])
    ensures r != [] ==> !IsSpace(r[0])
  {
    if s != [] && IsSpace(s[0]) then TrimLeft(s[1..]) else s
  }

  /** `s.rstrip()`: the prefix of `s` that ends at its last non-space character. */
  function TrimRight(s: string): (r: string)
    ensures |r| <= |s| && r == s[..|r|]
    ensures forall k :: |r| <= k < |s| ==> IsSpace(s[k])
    ensures r != [] ==> !IsSpace(r[|r| - 1])
  {
    if s != [] && IsSpace(s[|s| - 1]) then TrimRight(s[..|s| - 1]) else s
  }

  /** `s.strip()`: `s` without its leading and trailing white space. */
  function Strip(s: string): (r: string)
    ensures r == [] || (!IsSpace(r[0]) && !IsSpace(r[|r| - 1]))
    ensures var i := |s| - |TrimLeft(s)|;
      && 0 <= i <= |s| - |r|
      && r == s[i..i + |r|]
      && (forall k :: 0 <= k < i ==> IsSpace(s[k]))
      && (forall k :: i + |r| <= k < |s| ==> IsSpace(s[k]))
  {
    TrimRight(TrimLeft(s))
  }

  /** Stripping adds no character. */
  lemma StripKeepsAbsent(s: string, c: char)
    requires c !in s
    ensures c !in Strip(s)
  {
    var r := Strip(s);
    var i := |s| - |TrimLeft(s)|;
    assert forall k :: 0 <= k < |r| ==> r[k] == s[i + k];
  }

  /** `s.split(sep)[-1]`: the part of `s` after its last `sep`, or all of `s` if it has none. */
  function LastSegment(s: string, sep: char): (r: string)
    ensures sep !in r
    ensures |r| <= |s| && r == s[|s| - |r|..]
    ensures |r| < |s| ==> s[|s| - |r| - 1] == sep
  {
    if s == [] || s[|s| - 1] == sep then []
    else LastSegment(s[..|s| - 1], sep) + [s[|s| - 1]]
  }

  /** The last segment is everything after the last separator. */
  lemma LastSegmentAfter(s: string, sep: char, j: nat)
    requires j < |s| && s[j] == sep && sep !in s[j + 1..]
    ensures LastSegment(s, sep) == s[j + 1..]
  {
  }

  /** Stripping keeps everything from a non-space character to a later non-space one. */
  lemma StripKeepsInner(s: string, i: nat, j: nat)
    requires i < j <= |s| && !IsSpace(s[i]) && !IsSpace(s[j - 1])
    ensures var st := |s| - |TrimLeft(s)|; st <= i && j <= st + |Strip(s)|
    ensures |Strip(s)| >= j - i
  {
  }

  /** A string whose non-space part runs from `i` to `j` strips to exactly that part. */
  lemma StripExact(s: string, i: nat, j: nat)
    requires i < j <= |s| && !IsSpace(s[i]) && !IsSpace(s[j - 1])
    requires forall k :: 0 <= k < i ==> IsSpace(s[k])
    requires forall k :: j <= k < |s| ==> IsSpace(s[k])
    ensures Strip(s) == s[i..j]
  {
    var r := Strip(s);
    var start := |s| - |TrimLeft(s)|;
    assert r != [] && start <= i && start + |r| >= j;
    assert !IsSpace(s[start]) && !IsSpace(s[start + |r| - 1]);
  }
}
