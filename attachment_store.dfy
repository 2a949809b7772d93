/**
 * The hidden attachment inputs of the message form, in document order, and
 * what the upload script does to them: it appends a (reference, name) pair
 * whose index is half the number of attachment inputs already present, and
 * it removes the inputs of one uploaded file, found by value and then by
 * name exactly as its CSS selectors find them.
 */
module AttachmentStore {
  import opened Wrappers
  import opened FieldNames

  /** One hidden input `fileAttachments[<index>].<part>` with its value. */
  datatype AttachmentField = AttachmentField(index: nat, part: Part, value: string) {
    function Name(): string {
      AttachmentName(index, part)
    }
  }

  type Fields = seq<AttachmentField>

  /** `input[name^="fileAttachments"][name$=".fileReference"][value="<key>"]` */
  predicate MatchesReferenceSelector(f: AttachmentField, key: string) {
    StartsWith(f.Name(), "fileAttachments") && EndsWith(f.Name(), REFERENCE_SUFFIX) && f.value == key
  }

  /** The reference selector matches exactly the reference inputs holding the key. */
  lemma ReferenceSelectorExact(f: AttachmentField, key: string)
    ensures MatchesReferenceSelector(f, key) <==> f.part == Reference && f.value == key
  {
    ReferenceSuffixExact(f.index, f.part);
    var n := f.Name();
    assert n == PREFIX + (Decimal(f.index) + "]" + PartSuffix(f.part));
    assert n[..|PREFIX|] == PREFIX;
    assert n[..15] == PREFIX[..15] == "fileAttachments";
  }

  /** `input[name="fileAttachments[<i>].fileName"]` matches exactly the name inputs of index i. */
  lemma NameSelectorExact(f: AttachmentField, i: nat)
    ensures f.Name() == AttachmentName(i, FileName) <==> f.index == i && f.part == FileName
  {
    if f.Name() == AttachmentName(i, FileName) {
      NameInjective(f.index, f.part, i, FileName);
    }
  }

  /** A reference input holding the key: what the reference selector matches, by ReferenceSelectorExact. */
  predicate HoldsReference(f: AttachmentField, key: string) {
    f.part == Reference && f.value == key
  }

  /** `document.querySelector` with the reference selector: the first match in document order. */
  function FirstReference(fields: Fields, key: string): (r: Option<nat>)
    ensures r.Some? ==> r.value < |fields| && HoldsReference(fields[r.value], key)
    ensures r.Some? ==> forall j :: 0 <= j < r.value ==> !HoldsReference(fields[j], key)
    ensures r.None? ==> forall j :: 0 <= j < |fields| ==> !HoldsReference(fields[j], key)
  {
    if fields == [] then None
    else if HoldsReference(fields[0], key) then Some(0)
    else match FirstReference(fields[1..], key)
      case None => None
      case Some(j) => Some(j + 1)
  }

  /**
   * The name input of index i: what `input[name="fileAttachments[<i>].fileName"]`
   * matches, by NameSelectorExact, and the name removeFile builds from the
   * reference input's name, by ReplaceGivesNameInput.
   */
  predicate IsNameInput(f: AttachmentField, i: nat) {
    f.part == FileName && f.index == i
  }

  /** `document.querySelector` with the name selector: the first match in document order. */
  function FirstNameInput(fields: Fields, i: nat): (r: Option<nat>)
    ensures r.Some? ==> r.value < |fields| && IsNameInput(fields[r.value], i)
    ensures r.Some? ==> forall j :: 0 <= j < r.value ==> !IsNameInput(fields[j], i)
    ensures r.None? ==> forall j :: 0 <= j < |fields| ==> !IsNameInput(fields[j], i)
  {
    if fields == [] then None
    else if IsNameInput(fields[0], i) then Some(0)
    else match FirstNameInput(fields[1..], i)
      case None => None
      case Some(j) => Some(j + 1)
  }

  /** The document-order scan behind the reference lookup in removeFile. */
  method FindReference(fields: Fields, key: string) returns (r: Option<nat>)
    ensures r == FirstReference(fields, key)
  {
    var k := 0;
    while k < |fields|
      invariant k <= |fields|
      invariant forall j :: 0 <= j < k ==> !HoldsReference(fields[j], key)
    {
      if HoldsReference(fields[k], key) {
        return Some(k);
      }
      k := k + 1;
    }
    return None;
  }

  /** The document-order scan behind the name lookup in removeFile. */
  method FindNameInput(fields: Fields, i: nat) returns (r: Option<nat>)
    ensures r == FirstNameInput(fields, i)
  {
    var k := 0;
    while k < |fields|
      invariant k <= |fields|
      invariant forall j :: 0 <= j < k ==> !IsNameInput(fields[j], i)
    {
      if IsNameInput(fields[k], i) {
        return Some(k);
      }
      k := k + 1;
    }
    return None;
  }

  /** How many inputs of the given part carry index i. */
  function Count(fields: Fields, i: nat, part: Part): nat {
    if fields == [] then 0
    else (if fields[0].index == i && fields[0].part == part then 1 else 0) + Count(fields[1..], i, part)
  }

  /** How many inputs of the given part there are. */
  function PartCount(fields: Fields, part: Part): nat {
    if fields == [] then 0
    else (if fields[0].part == part then 1 else 0) + PartCount(fields[1..], part)
  }

  /** How many reference inputs hold the key: how often the form will submit it. */
  function KeyCount(fields: Fields, key: string): nat {
    if fields == [] then 0
    else (if HoldsReference(fields[0], key) then 1 else 0) + KeyCount(fields[1..], key)
  }

  /**
   * As many reference inputs as name inputs, and for every index as many
   * of each. This is what keeps the script's `count / 2` an integer and its
   * name lookup successful.
   */
  ghost predicate Balanced(fields: Fields) {
    && PartCount(fields, Reference) == PartCount(fields, FileName)
    && forall i: nat :: Count(fields, i, Reference) == Count(fields, i, FileName)
  }

  lemma {:induction false} CountsAppend(a: Fields, b: Fields)
    ensures forall i: nat, part :: Count(a + b, i, part) == Count(a, i, part) + Count(b, i, part)
    ensures forall part :: PartCount(a + b, part) == PartCount(a, part) + PartCount(b, part)
    ensures forall key :: KeyCount(a + b, key) == KeyCount(a, key) + KeyCount(b, key)
  {
    if a == [] {
      assert a + b == b;
    } else {
      assert (a + b)[1..] == a[1..] + b;
      CountsAppend(a[1..], b);
    }
  }

  lemma {:induction false} PartSizes(fields: Fields)
    ensures PartCount(fields, Reference) + PartCount(fields, FileName) == |fields|
  {
    if fields != [] {
      PartSizes(fields[1..]);
    }
  }

  /** A balanced form holds an even number of attachment inputs, half of them references. */
  lemma BalancedEven(fields: Fields)
    requires Balanced(fields)
    ensures |fields| % 2 == 0
    ensures PartCount(fields, Reference) == |fields| / 2
  {
    PartSizes(fields);
  }

  lemma {:induction false} Counted(fields: Fields, k: nat)
    requires k < |fields|
    ensures Count(fields, fields[k].index, fields[k].part) > 0
  {
    if k > 0 {
      Counted(fields[1..], k - 1);
    }
  }

  lemma {:induction false} FromCount(fields: Fields, i: nat, part: Part) returns (q: nat)
    requires Count(fields, i, part) > 0
    ensures q < |fields| && fields[q].index == i && fields[q].part == part
  {
    if fields[0].part == part && fields[0].index == i {
      q := 0;
    } else {
      var q' := FromCount(fields[1..], i, part);
      q := q' + 1;
    }
  }

  /** The form submits a key exactly when the reference selector finds an input for it. */
  lemma {:induction false} KeyFound(fields: Fields, key: string)
    ensures KeyCount(fields, key) > 0 <==> FirstReference(fields, key).Some?
  {
    if fields != [] {
      KeyFound(fields[1..], key);
    }
  }

  /** Node.remove() on the input at position i. */
  function Delete(fields: Fields, i: nat): (r: Fields)
    requires i < |fields|
    ensures |r| == |fields| - 1
    ensures forall j :: 0 <= j < i ==> r[j] == fields[j]
    ensures forall j :: i < j < |fields| ==> r[j - 1] == fields[j]
  {
    fields[..i] + fields[i + 1..]
  }

  lemma DeleteCounts(fields: Fields, k: nat)
    requires k < |fields|
    ensures forall i: nat, part :: Count(Delete(fields, k), i, part) + Count([fields[k]], i, part) == Count(fields, i, part)
    ensures forall part :: PartCount(Delete(fields, k), part) + PartCount([fields[k]], part) == PartCount(fields, part)
    ensures forall key :: KeyCount(Delete(fields, k), key) + KeyCount([fields[k]], key) == KeyCount(fields, key)
  {
    var a, b := fields[..k], fields[k + 1..];
    assert fields == a + ([fields[k]] + b);
    assert Delete(fields, k) == a + b;
    CountsAppend(a, [fields[k]] + b);
    CountsAppend([fields[k]], b);
    CountsAppend(a, b);
  }

  lemma SingleCounts(f: AttachmentField)
    ensures forall i: nat, part :: Count([f], i, part) == if f.index == i && f.part == part then 1 else 0
    ensures forall part :: PartCount([f], part) == if f.part == part then 1 else 0
    ensures forall key :: KeyCount([f], key) == if HoldsReference(f, key) then 1 else 0
  {
    assert [f][1..] == [];
  }

  /** Removing the inputs at two distinct positions; every other input keeps its place in order. */
  function DeleteTwo(fields: Fields, p: nat, q: nat): (r: Fields)
    requires p < |fields| && q < |fields| && p != q
    ensures |r| == |fields| - 2
    ensures forall j :: 0 <= j < |fields| && j != p && j != q ==>
      r[j - (if p < j then 1 else 0) - (if q < j then 1 else 0)] == fields[j]
  {
    if p < q then Delete(Delete(fields, q), p) else Delete(Delete(fields, p), q)
  }

  lemma DeleteTwoCounts(fields: Fields, p: nat, q: nat)
    requires p < |fields| && q < |fields| && p != q
    ensures forall i: nat, part :: Count(DeleteTwo(fields, p, q), i, part) + Count([fields[p]], i, part) + Count([fields[q]], i, part) == Count(fields, i, part)
    ensures forall part :: PartCount(DeleteTwo(fields, p, q), part) + PartCount([fields[p]], part) + PartCount([fields[q]], part) == PartCount(fields, part)
    ensures forall key :: KeyCount(DeleteTwo(fields, p, q), key) + KeyCount([fields[p]], key) + KeyCount([fields[q]], key) == KeyCount(fields, key)
  {
    var lo, hi := if p < q then p else q, if p < q then q else p;
    var once := Delete(fields, hi);
    assert DeleteTwo(fields, p, q) == Delete(once, lo);
    assert once[lo] == fields[lo];
    DeleteCounts(fields, hi);
    DeleteCounts(once, lo);
  }

  /** Appending the two inputs addFileAttachment creates, under index `count / 2`. */
  function AppendPair(fields: Fields, key: string, fileName: string): (r: Fields)
    requires |fields| % 2 == 0
    ensures |r| == |fields| + 2 && r[..|fields|] == fields
    ensures r[|fields|].part == Reference && r[|fields|].value == key
    ensures r[|fields| + 1].part == FileName && r[|fields| + 1].value == fileName
    ensures r[|fields|].index == r[|fields| + 1].index == |fields| / 2
  {
    var index := |fields| / 2;
    fields + [AttachmentField(index, Reference, key), AttachmentField(index, FileName, fileName)]
  }

  /**
   * One upload appends exactly one pair at the end, both under index
   * `count / 2` (the number of references already present); nothing before
   * it changes, the form stays balanced and the key is submitted once more.
   */
  lemma AppendKeepsBalance(fields: Fields, key: string, fileName: string)
    requires Balanced(fields)
    ensures |fields| % 2 == 0
    ensures var r := AppendPair(fields, key, fileName);
      && |r| == |fields| + 2
      && r[..|fields|] == fields
      && r[|fields|].part == Reference && r[|fields|].value == key
      && r[|fields| + 1].part == FileName && r[|fields| + 1].value == fileName
      && r[|fields|].index == r[|fields| + 1].index == PartCount(fields, Reference)
      && Balanced(r)
      && KeyCount(r, key) == KeyCount(fields, key) + 1
      && forall other :: other != key ==> KeyCount(r, other) == KeyCount(fields, other)
  {
    BalancedEven(fields);
    var index := |fields| / 2;
    var pair := [AttachmentField(index, Reference, key), AttachmentField(index, FileName, fileName)];
    assert pair == [pair[0]] + [pair[1]];
    SingleCounts(pair[0]);
    SingleCounts(pair[1]);
    CountsAppend([pair[0]], [pair[1]]);
    CountsAppend(fields, pair);
  }

  /** What removeFile does to the form for one key, and whether it found the reference input. */
  datatype Removal = Removal(fields: Fields, found: bool)

  /**
   * The reference input is found exactly when the form submits the key; the
   * form is then one submission of the key poorer, and otherwise untouched.
   */
  function RemoveByValue(fields: Fields, key: string): (r: Removal)
    ensures r.found <==> KeyCount(fields, key) > 0
    ensures !r.found ==> r.fields == fields
    ensures r.found ==> KeyCount(r.fields, key) == KeyCount(fields, key) - 1
    ensures forall other :: other != key ==> KeyCount(r.fields, other) == KeyCount(fields, other)
  {
    KeyFound(fields, key);
    match FirstReference(fields, key)
    case None => Removal(fields, false)
    case Some(p) =>
      SingleCounts(fields[p]);
      match FirstNameInput(fields, fields[p].index)
      case None =>
        DeleteCounts(fields, p);
        Removal(Delete(fields, p), true)
      case Some(q) =>
        SingleCounts(fields[q]);
        DeleteTwoCounts(fields, p, q);
        Removal(DeleteTwo(fields, p, q), true)
  }

  /**
   * On a balanced form, removing a key finds its reference input exactly
   * when the form submits the key; it then removes the first reference
   * input holding the key and the first name input (in document order)
   * carrying the same index, and keeps every other input in place and in
   * order, without renumbering.
   */
  lemma RemoveTakesFirstPair(fields: Fields, key: string)
    requires Balanced(fields)
    ensures var r := RemoveByValue(fields, key);
      && (r.found <==> KeyCount(fields, key) > 0)
      && (!r.found ==> r.fields == fields)
      && (r.found ==>
            var p := FirstReference(fields, key).value;
            var q := FirstNameInput(fields, fields[p].index);
            && fields[p].part == Reference && fields[p].value == key
            && q.Some? && fields[q.value].part == FileName && fields[q.value].index == fields[p].index
            && r.fields == DeleteTwo(fields, p, q.value))
  {
    KeyFound(fields, key);
    var first := FirstReference(fields, key);
    if first.Some? {
      var p := first.value;
      Counted(fields, p);
      var q0 := FromCount(fields, fields[p].index, FileName);
      assert IsNameInput(fields[q0], fields[p].index);
    }
  }

  /**
   * Removing a submitted key takes exactly one pair away: the form stays
   * balanced, holds two inputs fewer and submits that key once less and
   * every other key as often as before.
   */
  lemma RemoveKeepsBalance(fields: Fields, key: string)
    requires Balanced(fields)
    ensures var r := RemoveByValue(fields, key);
      && Balanced(r.fields)
      && (r.found ==> |r.fields| == |fields| - 2)
      && (r.found ==> KeyCount(r.fields, key) == KeyCount(fields, key) - 1)
      && forall other :: other != key ==> KeyCount(r.fields, other) == KeyCount(fields, other)
  {
    RemoveTakesFirstPair(fields, key);
    var r := RemoveByValue(fields, key);
    if r.found {
      var p := FirstReference(fields, key).value;
      var q := FirstNameInput(fields, fields[p].index).value;
      DeleteTwoCounts(fields, p, q);
      SingleCounts(fields[p]);
      SingleCounts(fields[q]);
    }
  }

  /**
   * The index quirk. After a middle entry has been removed, `count / 2` can
   * be an index that a remaining pair still carries. A new upload then gets
   * that index again, and removing the new upload deletes its reference
   * input but the OLDER name input of that index (the first in document
   * order): the new file's name survives, paired with the older reference.
   */
  lemma ReusedIndexRemovesOlderName(fields: Fields, key: string, fileName: string)
    requires Balanced(fields) && |fields| % 2 == 0
    requires KeyCount(fields, key) == 0
    requires Count(fields, |fields| / 2, FileName) > 0
    ensures var i := |fields| / 2;
      var q := FirstNameInput(fields, i);
      && Count(fields, i, Reference) > 0
      && q.Some? && fields[q.value].part == FileName && fields[q.value].index == i
      && RemoveByValue(AppendPair(fields, key, fileName), key).fields
         == Delete(fields, q.value) + [AttachmentField(i, FileName, fileName)]
  {
    var i := |fields| / 2;
    var appended := AppendPair(fields, key, fileName);
    assert appended[..|fields|] == fields;
    var q0 := FromCount(fields, i, FileName);
    assert IsNameInput(fields[q0], i);
    var q := FirstNameInput(fields, i).value;
    SameFirstNameInput(fields, appended, i, q);
    KeyFound(fields, key);
    SameFirstReference(fields, appended, key);
    DeleteFromPair(fields, q, key, fileName);
  }

  lemma DeleteFromPair(fields: Fields, q: nat, key: string, fileName: string)
    requires |fields| % 2 == 0 && q < |fields|
    ensures DeleteTwo(AppendPair(fields, key, fileName), |fields|, q)
         == Delete(fields, q) + [AttachmentField(|fields| / 2, FileName, fileName)]
  {
    var appended := AppendPair(fields, key, fileName);
    var once := Delete(appended, |fields|);
    assert once == fields + [appended[|fields| + 1]];
    assert Delete(once, q) == Delete(fields, q) + [appended[|fields| + 1]];
  }

  /** A first match in a prefix is the first match in the whole sequence. */
  lemma SameFirstNameInput(fields: Fields, longer: Fields, i: nat, q: nat)
    requires |fields| <= |longer| && longer[..|fields|] == fields
    requires FirstNameInput(fields, i) == Some(q)
    ensures FirstNameInput(longer, i) == Some(q)
  {
    forall j | 0 <= j <= q
      ensures longer[j] == fields[j]
    {
      assert longer[j] == longer[..|fields|][j];
    }
    FirstNameUnique(longer, i, q);
  }

  lemma {:induction false} FirstNameUnique(fields: Fields, i: nat, q: nat)
    requires q < |fields| && IsNameInput(fields[q], i)
    requires forall j :: 0 <= j < q ==> !IsNameInput(fields[j], i)
    ensures FirstNameInput(fields, i) == Some(q)
  {
    if q > 0 {
      FirstNameUnique(fields[1..], i, q - 1);
    }
  }

  /** A key absent from a prefix is first found in what follows it. */
  lemma SameFirstReference(fields: Fields, appended: Fields, key: string)
    requires |fields| < |appended| && appended[..|fields|] == fields
    requires FirstReference(fields, key).None?
    requires HoldsReference(appended[|fields|], key)
    ensures FirstReference(appended, key) == Some(|fields|)
  {
    forall j | 0 <= j < |fields|
      ensures !HoldsReference(appended[j], key)
    {
      assert appended[j] == appended[..|fields|][j];
    }
    FirstReferenceAt(appended, key, |fields|);
  }

  lemma {:induction false} FirstReferenceAt(fields: Fields, key: string, p: nat)
    requires p < |fields| && HoldsReference(fields[p], key)
    requires forall j :: 0 <= j < p ==> !HoldsReference(fields[j], key)
    ensures FirstReference(fields, key) == Some(p)
  {
    if p > 0 {
      FirstReferenceAt(fields[1..], key, p - 1);
    }
  }
}
