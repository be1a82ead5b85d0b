/** markdown-it's `Token`, reduced to the fields the rendering rules read or
    write, and its attribute accessors `attrIndex`, `attrGet`, `attrSet`. */
module Tokens {
  import opened Wrappers

  /** `map` is markdown-it's source-line range `[begin, end)` (0-based),
      absent on tokens that have none; `level` is the nesting depth;
      `attrs` is the ordered list of `[name, value]` pairs (an empty list
      stands for markdown-it's `null`). */
  datatype Token = Token(
    level: int,
    srcMap: Option<(int, int)>,
    content: string,
    attrs: seq<(string, string)>)

  /** `attrIndex(name)`: the position of the first attribute called `name`,
      or -1 when there is none. */
  function AttrIndex(attrs: seq<(string, string)>, name: string): (r: int)
    ensures -1 <= r < |attrs|
    ensures r == -1 <==> forall k :: 0 <= k < |attrs| ==> attrs[k].0 != name
    ensures r >= 0 ==> attrs[r].0 == name && forall k :: 0 <= k < r ==> attrs[k].0 != name
  {
    if |attrs| == 0 then -1
    else if attrs[0].0 == name then 0
    else
      var r := AttrIndex(attrs[1..], name);
      if r == -1 then -1 else r + 1
  }

  /** `attrGet(name)`: the value of the first attribute called `name`, or
      `null` (here `None`). */
  function AttrGet(t: Token, name: string): (r: Option<string>)
    ensures r.None? <==> forall k :: 0 <= k < |t.attrs| ==> t.attrs[k].0 != name
    ensures r.Some? ==>
      exists k :: 0 <= k < |t.attrs| && t.attrs[k] == (name, r.value) &&
                  forall j :: 0 <= j < k ==> t.attrs[j].0 != name
  {
    var i := AttrIndex(t.attrs, name);
    if i < 0 then None else Some(t.attrs[i].1)
  }

  /** `attrSet(name, value)`: replaces the value of the first attribute
      called `name`, or appends `[name, value]` when there is none. Reading
      `name` afterwards gives `value`, every other attribute reads as
      before, and no other field changes. */
  function AttrSet(t: Token, name: string, value: string): (r: Token)
    ensures AttrGet(r, name) == Some(value)
    ensures forall other :: other != name ==> AttrGet(r, other) == AttrGet(t, other)
    ensures r.level == t.level && r.srcMap == t.srcMap && r.content == t.content
    ensures |r.attrs| == |t.attrs| + (if AttrGet(t, name).None? then 1 else 0)
  {
    var i := AttrIndex(t.attrs, name);
    var attrs := if i < 0 then t.attrs + [(name, value)] else t.attrs[i := (name, value)];
    AttrIndexAfterSet(t.attrs, name, value, name);
    forall other | other != name
      ensures AttrIndex(attrs, other) == AttrIndex(t.attrs, other)
    {
      AttrIndexAfterSet(t.attrs, name, value, other);
    }
    t.(attrs := attrs)
  }

  /** The first-occurrence position is determined by its characterisation. */
  lemma AttrIndexIs(attrs: seq<(string, string)>, name: string, j: int)
    requires -1 <= j < |attrs|
    requires j >= 0 ==> attrs[j].0 == name
    requires forall k :: 0 <= k < |attrs| && (j == -1 || k < j) ==> attrs[k].0 != name
    ensures AttrIndex(attrs, name) == j
  {
  }

  /** Where each name is found after `attrSet(name, value)`. */
  lemma AttrIndexAfterSet(attrs: seq<(string, string)>, name: string, value: string, other: string)
    ensures var i := AttrIndex(attrs, name);
      var updated := if i < 0 then attrs + [(name, value)] else attrs[i := (name, value)];
      AttrIndex(updated, other) ==
        if other == name then (if i < 0 then |attrs| else i) else AttrIndex(attrs, other)
  {
    var i := AttrIndex(attrs, name);
    var updated := if i < 0 then attrs + [(name, value)] else attrs[i := (name, value)];
    if other == name {
      AttrIndexIs(updated, other, if i < 0 then |attrs| else i);
    } else {
      AttrIndexIs(updated, other, AttrIndex(attrs, other));
    }
  }

  /** Setting the same value twice is setting it once. */
  lemma AttrSetIdempotent(t: Token, name: string, value: string)
    ensures AttrSet(AttrSet(t, name, value), name, value) == AttrSet(t, name, value)
  {
    var once := AttrSet(t, name, value);
    var i := AttrIndex(t.attrs, name);
    AttrIndexAfterSet(t.attrs, name, value, name);
    var j := if i < 0 then |t.attrs| else i;
    assert AttrIndex(once.attrs, name) == j;
    assert once.attrs[j] == (name, value);
    assert once.attrs[j := (name, value)] == once.attrs;
  }
}
