/** String operations of the JavaScript runtime that the site relies on:
    `trim`, `replaceAll` with a string pattern, ASCII case folding and
    substring search. Strings are sequences of Dafny characters. */
module Text {

  import opened Wrappers

  /** JavaScript's WhiteSpace and LineTerminator characters: exactly what
      `String.prototype.trim` strips and what the regular-expression class `\s`
      matches. */
  predicate IsSpace(c: char) {
    || c == ' ' || c == '\t' || c == '\n' || c == '\r'
    || c == '\U{000B}' || c == '\U{000C}' || c == '\U{00A0}' || c == '\U{1680}'
    || ('\U{2000}' <= c <= '\U{200A}')
    || c == '\U{2028}' || c == '\U{2029}' || c == '\U{202F}' || c == '\U{205F}'
    || c == '\U{3000}' || c == '\U{FEFF}'
  }

  /** `s` neither starts nor ends with whitespace. */
  predicate IsTrimmed(s: string) {
    s == [] || (!IsSpace(s[0]) && !IsSpace(s[|s| - 1]))
  }

  /** Number of whitespace characters at the start of `s`. */
  function LeadingSpaces(s: string): (n: nat)
    ensures n <= |s|
    ensures forall k | 0 <= k < n :: IsSpace(s[k])
    ensures n == |s| || !IsSpace(s[n])
  {
    if s != [] && IsSpace(s[0]) then 1 + LeadingSpaces(s[1..]) else 0
  }

  /** Number of whitespace characters at the end of `s`. */
  function TrailingSpaces(s: string): (n: nat)
    ensures n <= |s|
    ensures forall k | |s| - n <= k < |s| :: IsSpace(s[k])
    ensures n == |s| || !IsSpace(s[|s| - 1 - n])
  {
    if s != [] && IsSpace(s[|s| - 1]) then 1 + TrailingSpaces(s[..|s| - 1]) else 0
  }

  /** `s.trim()`: the longest infix of `s` that neither starts nor ends with
      whitespace, obtained by dropping whitespace from both ends: what is
      dropped is exactly the leading and the trailing whitespace. */
  function Trim(s: string): (r: string)
    ensures LeadingSpaces(s) + |r| <= |s|
    ensures r == s[LeadingSpaces(s)..LeadingSpaces(s) + |r|]
    ensures r != [] ==> LeadingSpaces(s) + |r| + TrailingSpaces(s) == |s|
    ensures r == [] || (!IsSpace(r[0]) && !IsSpace(r[|r| - 1]))
    ensures r == [] <==> forall k | 0 <= k < |s| :: IsSpace(s[k])
    ensures s == [] || (!IsSpace(s[0]) && !IsSpace(s[|s| - 1])) ==> r == s
  {
    var lead := LeadingSpaces(s);
    if lead == |s| then []
    else
      var trail := TrailingSpaces(s);
      assert lead < |s| - trail;
      s[lead..|s| - trail]
  }

  /** Everything `s.trim()` drops is whitespace: the characters before the
      result are the leading whitespace, and those after it are whitespace
      too. */
  lemma TrimDropsOnlyWhitespace(s: string)
    ensures forall k | 0 <= k < LeadingSpaces(s) :: IsSpace(s[k])
    ensures forall k | LeadingSpaces(s) + |Trim(s)| <= k < |s| :: IsSpace(s[k])
  {
  }

  /** The result of trimming neither starts nor ends with whitespace. */
  lemma TrimIsTrimmed(s: string)
    ensures IsTrimmed(Trim(s))
  {
  }

  /** Trimming is idempotent. */
  lemma TrimIdempotent(s: string)
    ensures Trim(Trim(s)) == Trim(s)
  {
  }

  /** Trimming only removes characters. */
  lemma TrimKeepsCharacters(s: string)
    ensures forall c | c in Trim(s) :: c in s
  {
    var r := Trim(s);
    var lead := LeadingSpaces(s);
    forall c | c in r ensures c in s {
      var k :| 0 <= k < |r| && r[k] == c;
      assert s[lead + k] == c;
    }
  }

  /** `s.replaceAll(pat, rep)` for a non-empty string pattern: occurrences of
      `pat` are found left to right without overlapping, and each is replaced by
      `rep`; the replacement text is not searched again. */
  function ReplaceAll(s: string, pat: string, rep: string): (r: string)
    requires pat != []
    ensures pat[0] !in s ==> r == s
    decreases |s|
  {
    if |s| < |pat| then s
    else if s[..|pat|] == pat then rep + ReplaceAll(s[|pat|..], pat, rep)
    else [s[0]] + ReplaceAll(s[1..], pat, rep)
  }

  /** Replacing a single character distributes over concatenation: no
      occurrence of a one-character pattern can straddle the seam. */
  lemma {:induction false} ReplaceCharConcat(a: string, b: string, c: char, rep: string)
    ensures ReplaceAll(a + b, [c], rep) == ReplaceAll(a, [c], rep) + ReplaceAll(b, [c], rep)
    decreases |a|
  {
    if a == [] {
      assert a + b == b;
    } else {
      assert (a + b)[1..] == a[1..] + b;
      ReplaceCharConcat(a[1..], b, c, rep);
    }
  }

  /** A prefix that does not contain the pattern's first character is
      copied unchanged: no occurrence can start inside it. */
  lemma {:induction false} ReplaceSkip(x: string, rest: string, pat: string, rep: string)
    requires pat != [] && pat[0] !in x
    ensures ReplaceAll(x + rest, pat, rep) == x + ReplaceAll(rest, pat, rep)
    decreases |x|
  {
    if x == [] {
      assert x + rest == rest;
    } else {
      assert (x + rest)[0] == x[0] != pat[0];
      calc {
        ReplaceAll(x + rest, pat, rep);
      == { ReplaceNoMatchAtFront(x + rest, pat, rep); }
        [x[0]] + ReplaceAll((x + rest)[1..], pat, rep);
      == { assert (x + rest)[1..] == x[1..] + rest; ReplaceSkip(x[1..], rest, pat, rep); }
        [x[0]] + (x[1..] + ReplaceAll(rest, pat, rep));
      == { assert x == [x[0]] + x[1..]; }
        x + ReplaceAll(rest, pat, rep);
      }
    }
  }

  /** Where the pattern does not match at the front, the first character is
      copied and the search goes on from the second. */
  lemma ReplaceNoMatchAtFront(s: string, pat: string, rep: string)
    requires pat != [] && s != []
    requires !(|s| >= |pat| && s[..|pat|] == pat)
    ensures ReplaceAll(s, pat, rep) == [s[0]] + ReplaceAll(s[1..], pat, rep)
  {
    if |s| < |pat| {
      assert s == [s[0]] + s[1..];
    }
  }

  /** A one-character string is replaced exactly when it is the pattern. */
  lemma ReplaceCharSingle(x: char, c: char, rep: string)
    ensures ReplaceAll([x], [c], rep) == if x == c then rep else [x]
  {
  }

  /** ASCII-only lower-casing of one character. */
  function LowerAscii(c: char): (r: char)
    ensures 'A' <= c <= 'Z' ==> r as int == c as int + 32
    ensures !('A' <= c <= 'Z') ==> r == c
  {
    if 'A' <= c <= 'Z' then (c as int + 32) as char else c
  }

  /** ASCII-only lower-casing of a string, character by character. */
  function LowerAsciiString(s: string): (r: string)
    ensures |r| == |s|
    ensures forall k | 0 <= k < |s| :: r[k] == LowerAscii(s[k])
  {
    seq(|s|, k requires 0 <= k < |s| => LowerAscii(s[k]))
  }

  /** `p` occurs in `s` starting at index `k`. */
  predicate OccursAt(s: string, p: string, k: nat) {
    k + |p| <= |s| && s[k..k + |p|] == p
  }

  /** An occurrence in either half of a concatenation is an occurrence in
      the whole. */
  lemma OccursAtConcat(a: string, b: string, p: string, k: nat)
    ensures OccursAt(a, p, k) ==> OccursAt(a + b, p, k)
    ensures OccursAt(b, p, k) ==> OccursAt(a + b, p, |a| + k)
  {
    if OccursAt(a, p, k) {
      assert (a + b)[k..k + |p|] == a[k..k + |p|];
    }
    if OccursAt(b, p, k) {
      assert (a + b)[|a| + k..|a| + k + |p|] == b[k..k + |p|];
    }
  }

  /** `t` is a suffix of `s`. */
  predicate EndsWith(s: string, t: string) {
    |t| <= |s| && s[|s| - |t|..] == t
  }

  /** A concatenation starts with its first part and ends with its last. */
  lemma FramedBy(a: string, b: string, c: string, d: string)
    ensures OccursAt(a + b + c + d, a, 0) && EndsWith(a + b + c + d, d)
  {
    assert (a + b + c + d)[..|a|] == a;
    assert (a + b + c + d)[|a + b + c|..] == d;
  }

  /** `s.includes(p)`. */
  predicate Includes(s: string, p: string) {
    exists k: nat | k + |p| <= |s| :: OccursAt(s, p, k)
  }

  /** `s.indexOf(p, from)` for a non-empty `p`: the first occurrence at or
      after `from`, if any. */
  function IndexOf(s: string, p: string, from: nat): (r: Option<nat>)
    requires p != []
    ensures r.Some? ==> from <= r.value && r.value + |p| <= |s|
    decreases |s| - from
  {
    if from + |p| > |s| then None
    else if s[from..from + |p|] == p then Some(from)
    else IndexOf(s, p, from + 1)
  }

  /** The search finds the first occurrence, and finds nothing only when
      there is no occurrence at or after `from`. */
  lemma {:induction false} IndexOfIsFirst(s: string, p: string, from: nat)
    requires p != []
    ensures var r := IndexOf(s, p, from);
      && (r.Some? ==> OccursAt(s, p, r.value))
      && (r.Some? ==> forall k | from <= k < r.value :: !OccursAt(s, p, k))
      && (r.None? ==> forall k: nat | from <= k :: !OccursAt(s, p, k))
    decreases |s| - from
  {
    if from + |p| <= |s| && s[from..from + |p|] != p {
      IndexOfIsFirst(s, p, from + 1);
    }
  }

  /** Search from the start finds an occurrence exactly when `s.includes(p)`. */
  lemma IndexOfIncludes(s: string, p: string)
    requires p != []
    ensures IndexOf(s, p, 0).Some? <==> Includes(s, p)
  {
    IndexOfIsFirst(s, p, 0);
    if IndexOf(s, p, 0).Some? {
      var k := IndexOf(s, p, 0).value;
      assert OccursAt(s, p, k);
    }
  }

  /** `parts.join(sep)`. */
  function Join(parts: seq<string>, sep: string): string {
    if parts == [] then []
    else if |parts| == 1 then parts[0]
    else parts[0] + sep + Join(parts[1..], sep)
  }

  /** Each part of a join occurs in the joined text. */
  lemma {:induction false} JoinHasPart(parts: seq<string>, sep: string, i: nat)
    requires i < |parts|
    ensures Includes(Join(parts, sep), parts[i])
    decreases |parts|
  {
    var j := Join(parts, sep);
    if |parts| == 1 || i == 0 {
      assert j[..|parts[0]|] == parts[0];
      assert OccursAt(j, parts[0], 0);
    } else {
      var head := parts[0] + sep;
      var rest := Join(parts[1..], sep);
      JoinHasPart(parts[1..], sep, i - 1);
      var k: nat :| k + |parts[i]| <= |rest| && OccursAt(rest, parts[i], k);
      OccursAtConcat(head, rest, parts[i], k);
      assert OccursAt(j, parts[i], |head| + k);
    }
  }
}
