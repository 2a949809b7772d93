/**
 * The children of the form that posts a file to the upload service, and the
 * shape the script gives them when it receives fresh upload fields: every
 * old hidden input removed, the new fields inserted in order directly before
 * the file input, every other child left in place.
 */
module UpscanForm {

  /** A child of the upload form. */
  datatype Child = Hidden(name: string, value: string) | FileInput | Other(kind: string)

  /** The JSON the ticket endpoint answers with: the post target and the fields in key order. */
  datatype UpscanResponse = UpscanResponse(postTarget: string, formFields: seq<(string, string)>)

  /** The children that are not hidden inputs, in order. */
  function WithoutHidden(children: seq<Child>): (r: seq<Child>)
    ensures |r| <= |children|
    ensures forall k :: 0 <= k < |r| ==> !r[k].Hidden?
  {
    if children == [] then []
    else
      var last := children[|children| - 1];
      WithoutHidden(children[..|children| - 1]) + (if last.Hidden? then [] else [last])
  }

  /** The hidden inputs, in order. */
  function HiddenOf(children: seq<Child>): (r: seq<Child>)
    ensures |r| + |WithoutHidden(children)| == |children|
    ensures forall k :: 0 <= k < |r| ==> r[k].Hidden?
  {
    if children == [] then []
    else
      var last := children[|children| - 1];
      HiddenOf(children[..|children| - 1]) + (if last.Hidden? then [last] else [])
  }

  /** One hidden input per response field, named and valued as the field, in order. */
  function HiddenInputs(fields: seq<(string, string)>): (r: seq<Child>)
    ensures |r| == |fields|
    ensures forall k :: 0 <= k < |r| ==> r[k] == Hidden(fields[k].0, fields[k].1)
  {
    if fields == [] then []
    else
      var last := fields[|fields| - 1];
      HiddenInputs(fields[..|fields| - 1]) + [Hidden(last.0, last.1)]
  }

  /**
   * Where `insertBefore(input, fileInput)` puts a new input: before the first
   * file input, or at the end when there is none (a null reference appends).
   */
  function FilePosition(children: seq<Child>): (r: nat)
    ensures r <= |children|
    ensures r < |children| ==> children[r].FileInput?
    ensures forall k :: 0 <= k < r ==> !children[k].FileInput?
  {
    if children == [] then 0
    else if children[0].FileInput? then 0
    else 1 + FilePosition(children[1..])
  }

  /** `querySelector('input[type="file"]')`, scanning the children in order. */
  method FindFileInput(children: seq<Child>) returns (p: nat)
    ensures p == FilePosition(children)
  {
    p := 0;
    while p < |children| && !children[p].FileInput?
      invariant p <= |children|
      invariant forall k :: 0 <= k < p ==> !children[k].FileInput?
    {
      p := p + 1;
    }
    FilePositionAt(children, p);
  }

  /** Removes every hidden input, one at a time, in document order. */
  method RemoveHiddenInputs(children: seq<Child>) returns (kept: seq<Child>)
    ensures kept == WithoutHidden(children)
  {
    kept := [];
    var k := 0;
    while k < |children|
      invariant 0 <= k <= |children|
      invariant kept == WithoutHidden(children[..k])
    {
      assert children[..k + 1][..k] == children[..k];
      if !children[k].Hidden? {
        kept := kept + [children[k]];
      }
      k := k + 1;
    }
    assert children[..k] == children;
  }

  /**
   * Inserts one hidden input per field before the child at position p (the
   * file input, or the end), each new input going before that same child.
   */
  method InsertBefore(children: seq<Child>, p: nat, fields: seq<(string, string)>) returns (r: seq<Child>)
    requires p <= |children|
    ensures r == children[..p] + HiddenInputs(fields) + children[p..]
  {
    r := children;
    var j := 0;
    while j < |fields|
      invariant 0 <= j <= |fields|
      invariant r == children[..p] + HiddenInputs(fields[..j]) + children[p..]
    {
      var input := Hidden(fields[j].0, fields[j].1);
      assert fields[..j + 1][..j] == fields[..j];
      assert r[..p + j] == children[..p] + HiddenInputs(fields[..j]);
      assert r[p + j..] == children[p..];
      r := r[..p + j] + [input] + r[p + j..];
      j := j + 1;
    }
    assert fields[..j] == fields;
  }

  lemma {:induction false} FilePositionAt(children: seq<Child>, p: nat)
    requires p <= |children| && (p < |children| ==> children[p].FileInput?)
    requires forall k :: 0 <= k < p ==> !children[k].FileInput?
    ensures FilePosition(children) == p
  {
    if p > 0 {
      FilePositionAt(children[1..], p - 1);
    }
  }

  /** The form after the old hidden inputs are removed and the new fields inserted. */
  function Rebuilt(children: seq<Child>, fields: seq<(string, string)>): (r: seq<Child>)
    ensures |r| == |WithoutHidden(children)| + |fields|
  {
    var kept := WithoutHidden(children);
    var p := FilePosition(kept);
    kept[..p] + HiddenInputs(fields) + kept[p..]
  }

  lemma {:induction false} FiltersAppend(a: seq<Child>, b: seq<Child>)
    ensures WithoutHidden(a + b) == WithoutHidden(a) + WithoutHidden(b)
    ensures HiddenOf(a + b) == HiddenOf(a) + HiddenOf(b)
    decreases |b|
  {
    if b == [] {
      assert a + b == a;
    } else {
      var c := a + b;
      assert c[..|c| - 1] == a + b[..|b| - 1];
      FiltersAppend(a, b[..|b| - 1]);
    }
  }

  lemma {:induction false} FiltersOfKept(kept: seq<Child>)
    requires forall k :: 0 <= k < |kept| ==> !kept[k].Hidden?
    ensures WithoutHidden(kept) == kept && HiddenOf(kept) == []
  {
    if kept != [] {
      FiltersOfKept(kept[..|kept| - 1]);
    }
  }

  lemma {:induction false} FiltersOfHidden(fields: seq<(string, string)>)
    ensures WithoutHidden(HiddenInputs(fields)) == []
    ensures HiddenOf(HiddenInputs(fields)) == HiddenInputs(fields)
  {
    if fields != [] {
      var h := HiddenInputs(fields);
      assert h[..|h| - 1] == HiddenInputs(fields[..|fields| - 1]);
      FiltersOfHidden(fields[..|fields| - 1]);
    }
  }

  /** The first file input in a sequence that starts with no file input lies in what follows. */
  lemma {:induction false} FilePositionAfter(a: seq<Child>, b: seq<Child>)
    requires forall k :: 0 <= k < |a| ==> !a[k].FileInput?
    ensures FilePosition(a + b) == |a| + FilePosition(b)
  {
    if a != [] {
      var ab := a + b;
      assert ab[0] == a[0] && !a[0].FileInput?;
      assert ab[1..] == a[1..] + b;
      FilePositionAfter(a[1..], b);
    } else {
      assert a + b == b;
    }
  }

  /** Inserting hidden inputs between two runs of non-hidden children leaves the filter with just the runs. */
  lemma OthersAroundInserted(a: seq<Child>, fields: seq<(string, string)>, c: seq<Child>)
    requires forall k :: 0 <= k < |a| ==> !a[k].Hidden?
    requires forall k :: 0 <= k < |c| ==> !c[k].Hidden?
    ensures WithoutHidden(a + HiddenInputs(fields) + c) == a + c
  {
    var h := HiddenInputs(fields);
    assert WithoutHidden(a + h) == a by {
      FiltersAppend(a, h);
      FiltersOfHidden(fields);
      FiltersOfKept(a);
    }
    FiltersOfKept(c);
    FiltersAppend(a + h, c);
  }

  /**
   * After the rebuild, the form's non-hidden children are the old ones, in
   * their old relative order.
   */
  lemma RebuiltKeepsOthers(children: seq<Child>, fields: seq<(string, string)>)
    ensures WithoutHidden(Rebuilt(children, fields)) == WithoutHidden(children)
  {
    var kept := WithoutHidden(children);
    var p := FilePosition(kept);
    OthersAroundInserted(kept[..p], fields, kept[p..]);
    assert kept[..p] + kept[p..] == kept;
  }

  /**
   * After the rebuild, the form's hidden inputs are exactly the new fields,
   * in response order: no old hidden input survives.
   */
  lemma RebuiltHiddenAreFields(children: seq<Child>, fields: seq<(string, string)>)
    ensures HiddenOf(Rebuilt(children, fields)) == HiddenInputs(fields)
  {
    var kept := WithoutHidden(children);
    var p := FilePosition(kept);
    var a, h, c := kept[..p], HiddenInputs(fields), kept[p..];
    assert Rebuilt(children, fields) == (a + h) + c;
    assert HiddenOf(a + h) == h by {
      FiltersAppend(a, h);
      FiltersOfHidden(fields);
      FiltersOfKept(a);
    }
    assert HiddenOf(c) == [] by {
      FiltersOfKept(c);
    }
    FiltersAppend(a + h, c);
  }

  /**
   * The new fields sit contiguously and immediately before the form's first
   * file input (at the very end when the form has none).
   */
  lemma RebuiltBeforeFileInput(children: seq<Child>, fields: seq<(string, string)>)
    ensures var r := Rebuilt(children, fields);
      var q := FilePosition(r);
      && |fields| <= q
      && r[q - |fields|..q] == HiddenInputs(fields)
      && (q < |r| <==> FilePosition(WithoutHidden(children)) < |WithoutHidden(children)|)
  {
    var kept := WithoutHidden(children);
    var p := FilePosition(kept);
    var h := HiddenInputs(fields);
    var r := Rebuilt(children, fields);
    assert r == (kept[..p] + h) + kept[p..];
    FilePositionAfter(kept[..p] + h, kept[p..]);
    assert FilePosition(kept[p..]) == 0 by {
      if p < |kept| {
        assert kept[p..][0].FileInput?;
      }
    }
    assert r[p..p + |h|] == h;
  }
}
