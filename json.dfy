/** `processJson`: the walk over a Jackson object tree that rewrites every text value
    which is a colour and descends into nested objects, leaving arrays and scalars alone. */
module JsonTheme {
  import opened Options
  import opened HexText
  import opened Colors
  import opened Transform

  /** A JSON value as Jackson's tree holds it: an object (its fields in order), a text,
      an array, or any other scalar (number, boolean, null), kept as its literal. */
  datatype Node =
    | Obj(fields: seq<Field>)
    | Text(text: string)
    | Arr(items: seq<Node>)
    | Scalar(literal: string)

  datatype Field = Field(key: string, value: Node)

  /** An object's keys are distinct: Jackson keeps an object's fields in a map. */
  predicate DistinctKeys(fs: seq<Field>) {
    forall i, j :: 0 <= i < j < |fs| ==> fs[i].key != fs[j].key
  }

  /** Every object in the tree, however deep, has distinct keys. */
  predicate WellFormed(n: Node)
    decreases n
  {
    match n
    case Obj(fs) => DistinctKeys(fs) && forall i :: 0 <= i < |fs| ==> WellFormed(fs[i].value)
    case Arr(items) => forall i :: 0 <= i < |items| ==> WellFormed(items[i])
    case _ => true
  }

  /** `ObjectNode.replace(key, value)` on the field list (a `LinkedHashMap.put`): the
      field with that key gets the new value in its place, or the field is appended
      when the key is new. */
  function ReplaceField(fs: seq<Field>, key: string, v: Node): (r: seq<Field>)
    ensures (exists i :: 0 <= i < |fs| && fs[i].key == key) ==> |r| == |fs|
    ensures (forall i :: 0 <= i < |fs| ==> fs[i].key != key) ==> r == fs + [Field(key, v)]
    ensures forall i :: 0 <= i < |fs| && fs[i].key != key ==> r[i] == fs[i]
    ensures forall i :: 0 <= i < |fs| && fs[i].key == key && (forall j :: 0 <= j < i ==> fs[j].key != key) ==>
              r[i] == Field(key, v)
  {
    if fs == [] then [Field(key, v)]
    else if fs[0].key == key then [Field(key, v)] + fs[1..]
    else [fs[0]] + ReplaceField(fs[1..], key, v)
  }

  /** With distinct keys, replacing the value under the key of field `i` updates field
      `i` and nothing else. */
  lemma {:induction false} ReplaceAt(fs: seq<Field>, i: nat, v: Node)
    requires DistinctKeys(fs) && i < |fs|
    ensures ReplaceField(fs, fs[i].key, v) == fs[i := Field(fs[i].key, v)]
  {
    if i > 0 {
      assert DistinctKeys(fs[1..]);
      ReplaceAt(fs[1..], i - 1, v);
      assert fs[1..][i - 1 := Field(fs[i].key, v)] == fs[i := Field(fs[i].key, v)][1..];
    }
  }

  // ---------------------------------------------------------------- specification

  /** What the walk asks of a text value: its replacement, or None to leave it. The
      walk calls `mapValueJson` (`MapValueJson` below); the shape of the rewrite is
      stated for any such mapping, and the facts about colours for that one. */
  type TextMap = string -> Option<string>

  /** What `processJson` makes of one field value: a text that the mapping accepts
      becomes its replacement, an object is rewritten field by field, anything else
      (an unaccepted text, an array, a scalar) stays as it is. */
  function Rewritten(n: Node, mapText: TextMap): (r: Node)
    ensures r.Obj? == n.Obj? && r.Text? == n.Text?
    ensures n.Arr? || n.Scalar? ==> r == n
    decreases n, 1
  {
    match n
    case Text(t) =>
      (match mapText(t)
       case Some(hex) => Text(hex)
       case None => n)
    case Obj(fs) => Obj(RewrittenFields(fs, mapText))
    case _ => n
  }

  /** The fields of a rewritten object: the same keys in the same order, each value
      rewritten. */
  function RewrittenFields(fs: seq<Field>, mapText: TextMap): (r: seq<Field>)
    ensures |r| == |fs|
    ensures forall i :: 0 <= i < |fs| ==> r[i].key == fs[i].key
    decreases fs, 0
  {
    if fs == [] then []
    else
      var last := fs[|fs| - 1];
      RewrittenFields(fs[..|fs| - 1], mapText) + [Field(last.key, Rewritten(last.value, mapText))]
  }

  /** Field `i` of the rewritten list is field `i` rewritten. */
  lemma {:induction false} RewrittenFieldAt(fs: seq<Field>, i: nat, mapText: TextMap)
    requires i < |fs|
    ensures RewrittenFields(fs, mapText)[i] == Field(fs[i].key, Rewritten(fs[i].value, mapText))
  {
    if i < |fs| - 1 {
      RewrittenFieldAt(fs[..|fs| - 1], i, mapText);
    }
  }

  // ---------------------------------------------------------------- the walk

  /** A Jackson `ObjectNode`: its fields, in order, which `replace` updates in place. */
  class ObjectNode {
    var fields: seq<Field>

    constructor(fs: seq<Field>)
      ensures fields == fs
    {
      fields := fs;
    }

    /** `ObjectNode.replace(key, value)`. */
    method Replace(key: string, v: Node)
      modifies this
      ensures fields == ReplaceField(old(fields), key, v)
    {
      fields := ReplaceField(fields, key, v);
    }

    /** `processJson(node)`: walks a copy of the field list by index; a text value that
        `mapValueJson` turns into a colour is replaced under its key, an object value is
        processed in place (here: processed, then put back under its key), anything else
        is left alone. The object ends up as its rewritten self. */
    method ProcessJson()
      requires WellFormed(Obj(fields))
      modifies this
      ensures fields == RewrittenFields(old(fields), MapValueJson)
      ensures WellFormed(Obj(fields))
      decreases fields
    {
      var copy := fields;
      for i := 0 to |copy|
        invariant fields == RewrittenFields(copy[..i], MapValueJson) + copy[i..]
      {
        ghost var before := fields;
        var entry := fields[i];
        var key := copy[i].key;
        ghost var done := Field(key, Rewritten(copy[i].value, MapValueJson));
        PrefixStep(copy, before, i, MapValueJson);
        match copy[i].value {
          case Text(t) =>
            var replacement := MapValueJson(t);
            RewrittenText(t, MapValueJson);
            if replacement.Some? {
              ReplaceAt(fields, i, Text(replacement.value));
              Replace(key, Text(replacement.value));
            } else {
              assert before[i := done] == before;
            }
          case Obj(children) =>
            assert WellFormed(entry.value);
            var child := new ObjectNode(entry.value.fields);
            child.ProcessJson();
            assert done == Field(key, Obj(child.fields));
            ReplaceAt(fields, i, Obj(child.fields));
            Replace(key, Obj(child.fields));
          case _ =>
            assert before[i := done] == before;
        }
      }
      assert copy[..|copy|] == copy;
      RewrittenWellFormed(Obj(copy), MapValueJson);
    }
  }

  /** `Rewritten` on a text, by the outcome of the mapping. */
  lemma RewrittenText(t: string, mapText: TextMap)
    ensures Rewritten(Text(t), mapText) == if mapText(t).Some? then Text(mapText(t).value) else Text(t)
  {
  }

  /** Two field lists with the same keys position by position: distinct keys carry over. */
  lemma SameKeysDistinct(a: seq<Field>, b: seq<Field>)
    requires DistinctKeys(a) && |a| == |b|
    requires forall i :: 0 <= i < |a| ==> a[i].key == b[i].key
    ensures DistinctKeys(b)
  {
  }

  /** Rewriting one more field extends the rewritten prefix by that field. */
  lemma RewrittenSnoc(copy: seq<Field>, i: nat, mapText: TextMap)
    requires i < |copy|
    ensures RewrittenFields(copy[..i + 1], mapText)
            == RewrittenFields(copy[..i], mapText) + [Field(copy[i].key, Rewritten(copy[i].value, mapText))]
  {
    assert copy[..i + 1][..i] == copy[..i];
  }

  /** The loop step of `ProcessJson`: with the first `i` fields rewritten, the field
      list has distinct keys and putting field `i`'s rewritten value in its place
      extends the rewritten prefix by one. */
  lemma PrefixStep(copy: seq<Field>, before: seq<Field>, i: nat, mapText: TextMap)
    requires DistinctKeys(copy) && i < |copy|
    requires before == RewrittenFields(copy[..i], mapText) + copy[i..]
    ensures DistinctKeys(before) && before[i] == copy[i]
    ensures before[i := Field(copy[i].key, Rewritten(copy[i].value, mapText))]
            == RewrittenFields(copy[..i + 1], mapText) + copy[i + 1..]
  {
    PrefixKeys(copy, RewrittenFields(copy[..i], mapText), i);
    RewrittenSnoc(copy, i, mapText);
    PrefixUpdate(copy, RewrittenFields(copy[..i], mapText), i,
                 Field(copy[i].key, Rewritten(copy[i].value, mapText)));
  }

  /** A prefix with the same keys as `copy` keeps the whole list's keys distinct. */
  lemma PrefixKeys(copy: seq<Field>, prefix: seq<Field>, i: nat)
    requires DistinctKeys(copy) && i < |copy| && |prefix| == i
    requires forall k :: 0 <= k < i ==> prefix[k].key == copy[k].key
    ensures DistinctKeys(prefix + copy[i..]) && (prefix + copy[i..])[i] == copy[i]
  {
    var before := prefix + copy[i..];
    forall k | 0 <= k < |copy|
      ensures before[k].key == copy[k].key
    {
      if k >= i {
        assert before[k] == copy[i..][k - i];
      }
    }
    SameKeysDistinct(copy, before);
  }

  /** Putting the next field in place at `i` extends the prefix by it. */
  lemma PrefixUpdate(copy: seq<Field>, prefix: seq<Field>, i: nat, done: Field)
    requires i < |copy| && |prefix| == i
    ensures (prefix + copy[i..])[i := done] == prefix + [done] + copy[i + 1..]
  {
    var before := prefix + copy[i..];
    var after := prefix + [done] + copy[i + 1..];
    forall k | 0 <= k < |copy|
      ensures before[i := done][k] == after[k]
    {
      if k > i {
        assert after[k] == copy[i + 1..][k - i - 1];
        assert before[k] == copy[i..][k - i];
      }
    }
  }

  // ---------------------------------------------------------------- properties

  /** Canonical colour text: '#' and six lower-case hex digits, what `toHex(true)` writes. */
  predicate Canonical(s: string) {
    |s| == 7 && s[0] == '#' && AllLowerHex(s[1..])
  }

  /** A text value is replaced exactly when it parses as a colour, and then by a
      canonical colour text that parses to the processed colour; a text that does not
      parse stays as it was. */
  lemma TextRewrite(t: string)
    ensures ParseOrNull(t).None? ==> Rewritten(Text(t), MapValueJson) == Text(t)
    ensures ParseOrNull(t).Some? ==>
              Rewritten(Text(t), MapValueJson).Text? && Canonical(Rewritten(Text(t), MapValueJson).text) &&
              ParseOrNull(Rewritten(Text(t), MapValueJson).text) == Some(ProcessColor(ParseOrNull(t).value))
  {
    RewrittenText(t, MapValueJson);
  }

  /** The rewrite keeps the tree's shape: objects stay objects with the same keys in
      the same order, texts stay texts, and arrays and scalars stay as they are. */
  predicate SameShape(a: Node, b: Node)
    decreases a
  {
    match a
    case Obj(fs) =>
      b.Obj? && |b.fields| == |fs| &&
      forall i :: 0 <= i < |fs| ==> b.fields[i].key == fs[i].key && SameShape(fs[i].value, b.fields[i].value)
    case Text(_) => b.Text?
    case _ => b == a
  }

  lemma {:induction false} RewrittenSameShape(n: Node, mapText: TextMap)
    ensures SameShape(n, Rewritten(n, mapText))
    decreases n
  {
    match n
    case Obj(fs) =>
      forall i | 0 <= i < |fs|
        ensures SameShape(fs[i].value, Rewritten(n, mapText).fields[i].value)
      {
        RewrittenFieldAt(fs, i, mapText);
        RewrittenSameShape(fs[i].value, mapText);
      }
    case Text(t) =>
    case _ =>
  }

  /** After the rewrite every text reachable through objects is settled: either a
      canonical colour text or one that does not parse as a colour at all. */
  predicate Settled(n: Node)
    decreases n
  {
    match n
    case Text(t) => Canonical(t) || ParseOrNull(t).None?
    case Obj(fs) => forall i :: 0 <= i < |fs| ==> Settled(fs[i].value)
    case _ => true
  }

  /** A mapping that only ever writes canonical texts and leaves alone only texts that
      are not colours; `mapValueJson` is one (`MapValueJsonSettles`). */
  ghost predicate Settles(mapText: TextMap) {
    forall t :: (mapText(t).Some? ==> Canonical(mapText(t).value)) &&
                (mapText(t).None? ==> ParseOrNull(t).None?)
  }

  lemma MapValueJsonSettles()
    ensures Settles(MapValueJson)
  {
    forall t
      ensures (MapValueJson(t).Some? ==> Canonical(MapValueJson(t).value)) &&
              (MapValueJson(t).None? ==> ParseOrNull(t).None?)
    {
    }
  }

  lemma {:induction false} RewrittenSettled(n: Node, mapText: TextMap)
    requires Settles(mapText)
    ensures Settled(Rewritten(n, mapText))
    decreases n
  {
    match n
    case Obj(fs) =>
      forall i | 0 <= i < |fs|
        ensures Settled(Rewritten(n, mapText).fields[i].value)
      {
        RewrittenFieldAt(fs, i, mapText);
        RewrittenSettled(fs[i].value, mapText);
      }
    case Text(t) =>
    case _ =>
  }

  /** `processJson` leaves every text of the tree settled. */
  lemma ProcessedTreeSettled(n: Node)
    ensures Settled(Rewritten(n, MapValueJson))
  {
    MapValueJsonSettles();
    RewrittenSettled(n, MapValueJson);
  }

  /** The rewrite keeps every object's keys distinct. */
  lemma {:induction false} RewrittenWellFormed(n: Node, mapText: TextMap)
    requires WellFormed(n)
    ensures WellFormed(Rewritten(n, mapText))
    decreases n
  {
    match n
    case Obj(fs) =>
      var r := RewrittenFields(fs, mapText);
      SameKeysDistinct(fs, r);
      forall i | 0 <= i < |fs|
        ensures WellFormed(r[i].value)
      {
        RewrittenFieldAt(fs, i, mapText);
        RewrittenWellFormed(fs[i].value, mapText);
      }
    case Text(t) =>
    case _ =>
  }
}
