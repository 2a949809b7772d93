/**
 * The strings the upload script writes into the page: the decimal rendering
 * of an attachment index, the names of the hidden attachment inputs, the
 * iframe name, and the string operations the script applies to them
 * (prefix and suffix tests of attribute selectors, String.prototype.replace
 * with a string pattern).
 */
module FieldNames {
  import opened Wrappers

  predicate StartsWith(s: string, prefix: string) {
    |prefix| <= |s| && s[..|prefix|] == prefix
  }

  predicate EndsWith(s: string, suffix: string) {
    |suffix| <= |s| && s[|s| - |suffix|..] == suffix
  }

  predicate IsDigit(c: char) {
    '0' <= c <= '9'
  }

  function Digit(d: nat): (c: char)
    requires d < 10
    ensures IsDigit(c)
    ensures c as int - '0' as int == d
  {
    ('0' as int + d) as char
  }

  /** A non-negative integer as a template literal prints it: decimal, no leading zeros. */
  function Decimal(n: nat): (r: string)
    ensures 1 <= |r| && IsDigit(r[|r| - 1])
    ensures r[|r| - 1] as int - '0' as int == n % 10
    ensures |r| > 1 ==> r[0] != '0'
  {
    if n < 10 then [Digit(n)] else Decimal(n / 10) + [Digit(n % 10)]
  }

  /** The rendering is a non-empty string of digits, a single digit exactly below ten. */
  lemma {:induction false} DecimalShape(n: nat)
    ensures 1 <= |Decimal(n)|
    ensures forall k :: 0 <= k < |Decimal(n)| ==> IsDigit(Decimal(n)[k])
    ensures |Decimal(n)| == 1 <==> n < 10
  {
    if 10 <= n {
      DecimalShape(n / 10);
    }
  }

  /** Distinct indices render as distinct strings. */
  lemma {:induction false} DecimalInjective(a: nat, b: nat)
    requires Decimal(a) == Decimal(b)
    ensures a == b
  {
    DecimalShape(a);
    DecimalShape(b);
    if 10 <= a && 10 <= b {
      DecimalShape(a / 10);
      DecimalShape(b / 10);
      var da, db := Decimal(a), Decimal(b);
      assert Decimal(a / 10) == da[..|da| - 1];
      assert Decimal(b / 10) == db[..|db| - 1];
      DecimalInjective(a / 10, b / 10);
      assert Digit(a % 10) == da[|da| - 1] == Digit(b % 10);
    }
  }

  datatype Part = Reference | FileName

  const PREFIX := "fileAttachments["
  const REFERENCE_SUFFIX := ".fileReference"
  const NAME_SUFFIX := ".fileName"

  function PartSuffix(part: Part): string {
    match part
    case Reference => REFERENCE_SUFFIX
    case FileName => NAME_SUFFIX
  }

  /** `fileAttachments[<index>].fileReference` or `fileAttachments[<index>].fileName`. */
  function AttachmentName(index: nat, part: Part): (r: string)
    ensures StartsWith(r, PREFIX) && EndsWith(r, PartSuffix(part))
    ensures |r| == |PREFIX| + |Decimal(index)| + 1 + |PartSuffix(part)|
  {
    var suffix := PartSuffix(part);
    var tail := Decimal(index) + "]" + suffix;
    var r := PREFIX + tail;
    assert r[..|PREFIX|] == PREFIX;
    assert r[|r| - |suffix|..] == tail[|tail| - |suffix|..] == suffix;
    r
  }

  lemma StripPrefix(a: string, x: string, y: string)
    requires a + x == a + y
    ensures x == y
  {
    assert x == (a + x)[|a|..];
    assert y == (a + y)[|a|..];
  }

  /** Two digit strings each followed by ']' split the same way only if they are equal. */
  lemma SplitAtBracket(a: string, x: string, b: string, y: string)
    requires forall k :: 0 <= k < |a| ==> IsDigit(a[k])
    requires forall k :: 0 <= k < |b| ==> IsDigit(b[k])
    requires a + "]" + x == b + "]" + y
    ensures a == b && x == y
  {
    var u := a + "]" + x;
    var v := b + "]" + y;
    assert u[|a|] == ']' && v[|b|] == ']';
    assert forall k :: 0 <= k < |a| ==> u[k] == a[k];
    assert forall k :: 0 <= k < |b| ==> v[k] == b[k];
    assert |a| == |b|;
    assert a == u[..|a|] && b == v[..|b|];
    assert x == u[|a| + 1..] && y == v[|b| + 1..];
  }

  /** The name an attachment input carries determines its index and its part. */
  lemma NameInjective(i: nat, p: Part, j: nat, q: Part)
    requires AttachmentName(i, p) == AttachmentName(j, q)
    ensures i == j && p == q
  {
    var u := Decimal(i) + "]" + PartSuffix(p);
    var v := Decimal(j) + "]" + PartSuffix(q);
    StripPrefix(PREFIX, u, v);
    DecimalShape(i);
    DecimalShape(j);
    SplitAtBracket(Decimal(i), PartSuffix(p), Decimal(j), PartSuffix(q));
    DecimalInjective(i, j);
  }

  /** The attribute selector `[name$=".fileReference"]` picks exactly the reference inputs. */
  lemma ReferenceSuffixExact(index: nat, part: Part)
    ensures EndsWith(AttachmentName(index, part), REFERENCE_SUFFIX) <==> part == Reference
  {
    var s := AttachmentName(index, part);
    if part == FileName {
      SuffixLetters();
      var end := s[|s| - |NAME_SUFFIX|..];
      assert end == NAME_SUFFIX;
      assert s[|s| - |REFERENCE_SUFFIX|..][5] == end[0];
    }
  }

  /** The two suffixes differ where `.fileName` starts inside `.fileReference`. */
  lemma SuffixLetters()
    ensures |REFERENCE_SUFFIX| == 14 && |NAME_SUFFIX| == 9
    ensures REFERENCE_SUFFIX[5] == 'R' && NAME_SUFFIX[0] == '.'
  {
  }

  predicate OccursAt(s: string, pattern: string, k: nat) {
    k + |pattern| <= |s| && s[k..k + |pattern|] == pattern
  }

  /** The first position at or after `from` where `pattern` occurs in `s`. */
  function IndexOf(s: string, pattern: string, from: nat): (r: Option<nat>)
    decreases |s| - from
    ensures r.Some? ==> from <= r.value && OccursAt(s, pattern, r.value)
    ensures r.Some? ==> forall k :: from <= k < r.value ==> !OccursAt(s, pattern, k)
    ensures r.None? ==> forall k :: from <= k ==> !OccursAt(s, pattern, k)
  {
    if |s| < from + |pattern| then None
    else if OccursAt(s, pattern, from) then Some(from)
    else IndexOf(s, pattern, from + 1)
  }

  /** String.prototype.replace with a string pattern: only the first occurrence is replaced. */
  function ReplaceFirst(s: string, pattern: string, replacement: string): (r: string)
    ensures IndexOf(s, pattern, 0).None? ==> r == s
    ensures IndexOf(s, pattern, 0).Some? ==>
      var k := IndexOf(s, pattern, 0).value;
      && |r| == |s| - |pattern| + |replacement|
      && r[..k] == s[..k]
      && r[k..k + |replacement|] == replacement
      && r[k + |replacement|..] == s[k + |pattern|..]
  {
    match IndexOf(s, pattern, 0)
    case None => s
    case Some(k) => s[..k] + replacement + s[k + |pattern|..]
  }

  /** `fileAttachments[<index>]`, the part of a name before its suffix. */
  function Head(index: nat): string {
    PREFIX + Decimal(index) + "]"
  }

  lemma NameSplit(index: nat, part: Part)
    ensures AttachmentName(index, part) == Head(index) + PartSuffix(part)
  {
  }

  /** Replacing the first occurrence found at k by a new text. */
  lemma ReplaceAt(head: string, pattern: string, replacement: string)
    requires IndexOf(head + pattern, pattern, 0) == Some(|head|)
    ensures ReplaceFirst(head + pattern, pattern, replacement) == head + replacement
  {
    var s := head + pattern;
    assert s[..|head|] == head;
    assert s[|head| + |pattern|..] == [];
  }

  /**
   * Replacing `.fileReference` by `.fileName` in a reference input's name
   * gives the name of the name input with the same index: no earlier
   * position of the name holds a '.', so the suffix is the first occurrence.
   */
  lemma ReplaceGivesNameInput(index: nat)
    ensures ReplaceFirst(AttachmentName(index, Reference), REFERENCE_SUFFIX, NAME_SUFFIX)
         == AttachmentName(index, FileName)
  {
    NameSplit(index, Reference);
    NameSplit(index, FileName);
    SuffixIsFirstOccurrence(index);
    ReplaceAt(Head(index), REFERENCE_SUFFIX, NAME_SUFFIX);
  }

  /** In a reference input's name, `.fileReference` first occurs where the suffix starts. */
  lemma SuffixIsFirstOccurrence(index: nat)
    ensures IndexOf(Head(index) + REFERENCE_SUFFIX, REFERENCE_SUFFIX, 0) == Some(|Head(index)|)
  {
    var head := Head(index);
    var s := head + REFERENCE_SUFFIX;
    HeadHasNoDot(index);
    forall k | 0 <= k < |head|
      ensures !OccursAt(s, REFERENCE_SUFFIX, k)
    {
      assert s[k] == head[k];
      NoOccurrenceAt(s, REFERENCE_SUFFIX, k);
    }
    assert OccursAt(s, REFERENCE_SUFFIX, |head|);
    FirstOccurrence(s, REFERENCE_SUFFIX, 0, |head|);
  }

  lemma NoOccurrenceAt(s: string, pattern: string, k: nat)
    requires k < |s| && pattern != [] && s[k] != pattern[0]
    ensures !OccursAt(s, pattern, k)
  {
  }

  /** No character of `fileAttachments[<index>]` is a '.'. */
  lemma HeadHasNoDot(index: nat)
    ensures forall k :: 0 <= k < |Head(index)| ==> Head(index)[k] != '.'
  {
    var head := Head(index);
    DecimalShape(index);
    forall k | 0 <= k < |head|
      ensures head[k] != '.'
    {
      if k < |PREFIX| {
        assert head[k] == PREFIX[k];
      } else if k < |PREFIX| + |Decimal(index)| {
        assert head[k] == Decimal(index)[k - |PREFIX|];
      }
    }
  }

  lemma {:induction false} FirstOccurrence(s: string, pattern: string, from: nat, k: nat)
    requires from <= k && OccursAt(s, pattern, k)
    requires forall j :: from <= j < k ==> !OccursAt(s, pattern, j)
    ensures IndexOf(s, pattern, from) == Some(k)
    decreases k - from
  {
    if from < k {
      FirstOccurrence(s, pattern, from + 1, k);
    }
  }

  const IFRAME_PREFIX := "upscan-upload-iframe-"

  /** The name of the hidden iframe an upload posts into: `upscan-upload-iframe-<now>`. */
  function IframeName(now: nat): (r: string)
    ensures StartsWith(r, IFRAME_PREFIX) && |r| > |IFRAME_PREFIX|
    ensures forall k :: |IFRAME_PREFIX| <= k < |r| ==> IsDigit(r[k])
  {
    DecimalShape(now);
    IFRAME_PREFIX + Decimal(now)
  }

  /** Uploads started at different times post into differently named iframes. */
  lemma IframeNameInjective(a: nat, b: nat)
    requires IframeName(a) == IframeName(b)
    ensures a == b
  {
    assert IframeName(a)[|IFRAME_PREFIX|..] == Decimal(a);
    assert IframeName(b)[|IFRAME_PREFIX|..] == Decimal(b);
    DecimalInjective(a, b);
  }
}
