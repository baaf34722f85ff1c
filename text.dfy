/** Character and string helpers used by the path logic: the separator,
    ASCII case folding, implode, trimming and searching for a character. */
module Text {

  /** The directory separator. The model covers the Unix family only. */
  const Sep: char := '/'

  /** ASCII lower-casing, as strtolower does. */
  function Lower(c: char): char {
    if 'A' <= c <= 'Z' then (c as int + 32) as char else c
  }

  function LowerStr(s: string): string {
    seq(|s|, i requires 0 <= i < |s| => Lower(s[i]))
  }

  /** stristr(hay, needle) !== false, written as a scan from the left. */
  function ContainsCI(hay: string, needle: string): bool
    decreases |hay|
  {
    if |hay| < |needle| then false
    else LowerStr(hay[..|needle|]) == LowerStr(needle) || ContainsCI(hay[1..], needle)
  }

  /** The needle occurs in hay at index i, ignoring case. */
  predicate MatchesAtCI(hay: string, needle: string, i: int) {
    0 <= i && i + |needle| <= |hay| && LowerStr(hay[i..i + |needle|]) == LowerStr(needle)
  }

  /** The scan finds the needle exactly when it occurs somewhere, ignoring case. */
  lemma {:induction false} ContainsCIIff(hay: string, needle: string)
    ensures ContainsCI(hay, needle) <==> exists i :: MatchesAtCI(hay, needle, i)
    decreases |hay|
  {
    if |hay| >= |needle| {
      if LowerStr(hay[..|needle|]) == LowerStr(needle) {
        assert hay[0..0 + |needle|] == hay[..|needle|];
        assert MatchesAtCI(hay, needle, 0);
      } else {
        ContainsCIIff(hay[1..], needle);
        if ContainsCI(hay[1..], needle) {
          var i :| MatchesAtCI(hay[1..], needle, i);
          assert hay[1..][i..i + |needle|] == hay[i + 1..i + 1 + |needle|];
          assert MatchesAtCI(hay, needle, i + 1);
        } else {
          forall i | 0 <= i && i + |needle| <= |hay|
            ensures !MatchesAtCI(hay, needle, i)
          {
            if i == 0 {
              assert hay[i..i + |needle|] == hay[..|needle|];
            } else {
              var rest := hay[1..];
              assert !MatchesAtCI(rest, needle, i - 1);
              assert rest[i - 1..i - 1 + |needle|] == hay[i..i + |needle|];
            }
          }
        }
      }
    }
  }

  /** implode(sep, parts). */
  function Implode(parts: seq<string>, sep: char): string
    decreases |parts|
  {
    if |parts| == 0 then ""
    else if |parts| == 1 then parts[0]
    else parts[0] + [sep] + Implode(parts[1..], sep)
  }

  predicate NoTrailingSep(s: string) {
    |s| == 0 || s[|s| - 1] != Sep
  }

  predicate NoDoubleSep(s: string) {
    forall i :: 0 <= i < |s| - 1 ==> !(s[i] == Sep && s[i + 1] == Sep)
  }

  /** rtrim(s, Sep): the longest prefix of s that does not end with a
      separator, such that only separators follow it. */
  function RTrim(s: string): (r: string)
    ensures |r| <= |s| && r == s[..|r|]
    ensures NoTrailingSep(r)
    ensures forall j :: |r| <= j < |s| ==> s[j] == Sep
    decreases |s|
  {
    if |s| > 0 && s[|s| - 1] == Sep then RTrim(s[..|s| - 1]) else s
  }

  /** ltrim(s, Sep), the mirror image of RTrim. */
  function LTrim(s: string): (r: string)
    ensures |r| <= |s| && r == s[|s| - |r|..]
    ensures |r| == 0 || r[0] != Sep
    ensures forall j :: 0 <= j < |s| - |r| ==> s[j] == Sep
    decreases |s|
  {
    if |s| > 0 && s[0] == Sep then LTrim(s[1..]) else s
  }

  /** One leading separator is all ltrim removes when a non-separator follows it. */
  lemma LTrimOneSep(s: string)
    requires |s| >= 2 && s[0] == Sep && s[1] != Sep
    ensures LTrim(s) == s[1..]
  {
    assert LTrim(s) == LTrim(s[1..]);
  }

  /** One trailing separator is all rtrim removes when a non-separator precedes it. */
  lemma RTrimOneSep(s: string)
    requires |s| >= 2 && s[|s| - 1] == Sep && s[|s| - 2] != Sep
    ensures RTrim(s) == s[..|s| - 1]
  {
    assert RTrim(s) == RTrim(s[..|s| - 1]);
  }

  /** trim(s, Sep): separators removed from both ends. */
  function Trim(s: string): (r: string)
    ensures |r| == 0 || (r[0] != Sep && r[|r| - 1] != Sep)
  {
    LTrim(RTrim(s))
  }

  /** The index of the last occurrence of c in s, or -1. */
  function LastIndex(s: string, c: char): (k: int)
    ensures -1 <= k < |s|
    ensures k >= 0 ==> s[k] == c
    ensures forall j :: k < j < |s| ==> s[j] != c
    decreases |s|
  {
    if |s| == 0 then -1
    else if s[|s| - 1] == c then |s| - 1
    else LastIndex(s[..|s| - 1], c)
  }

  /** The index of the first occurrence of c in s, or |s| when there is none. */
  function FirstIndex(s: string, c: char): (k: nat)
    ensures k <= |s|
    ensures k < |s| ==> s[k] == c
    ensures forall j :: 0 <= j < k ==> s[j] != c
    decreases |s|
  {
    if |s| == 0 then 0
    else if s[0] == c then 0
    else 1 + FirstIndex(s[1..], c)
  }

  /** The last occurrence is the one after which c does not occur. */
  lemma LastIndexAt(s: string, c: char, k: nat)
    requires k < |s| && s[k] == c && c !in s[k + 1..]
    ensures LastIndex(s, c) == k
  {
  }

  /** The first occurrence is the one before which c does not occur. */
  lemma FirstIndexAt(s: string, c: char, k: nat)
    requires k < |s| && s[k] == c && forall j :: 0 <= j < k ==> s[j] != c
    ensures FirstIndex(s, c) == k
  {
  }
}
