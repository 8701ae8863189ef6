/**
 What redaction keeps: whoever looks into a value along a path of positions, through harmless keys, the first
 hundred items of lists and embedded JSON text, sees the same before and after. Together with the normal form this
 says exactly what the result is.
 */
module RedactionFaces {
  import opened Wrappers
  import opened Json
  import opened Redaction

  /** What shows of a value from outside: a leaf itself, the keys of a dictionary, the length of a list. */
  datatype Face = Leaf(v: Value) | Keys(keys: seq<string>) | Length(n: nat)

  /** The container that a string stands for, or the value itself. */
  function Unwrapped(v: Value): Value {
    if v.Str? && Reparsed(v.s).Some? then Reparsed(v.s).value else v
  }

  function KeysOf(entries: seq<Entry>): seq<string> {
    seq(|entries|, i requires 0 <= i < |entries| => entries[i].key)
  }

  function FaceOf(v: Value): Face {
    match Unwrapped(v)
    case Map(entries) => Keys(KeysOf(entries))
    case List(items) => Length(|First100(items)|)
    case leaf => Leaf(leaf)
  }

  /** The value at position `i`, unless a sensitive key or the limit of a hundred hides it. */
  function Child(v: Value, i: nat): Option<Value> {
    match Unwrapped(v)
    case Map(entries) =>
      if i < |entries| && !IsSensitiveKey(entries[i].key) then Some(entries[i].value) else None
    case List(items) => if i < |First100(items)| then Some(items[i]) else None
    case _ => None
  }

  function FaceAt(v: Value, path: seq<nat>): Option<Face>
    decreases |path|
  {
    if path == [] then Some(FaceOf(v))
    else
      var child := Child(v, path[0]);
      if child.None? then None else FaceAt(child.value, path[1..])
  }

  // ---------------------------------------------------------------- redaction keeps the faces

  /** A string is only ever read as a container, so unwrapping once is enough. */
  lemma ReparsedIsContainer(s: string)
    ensures Reparsed(s).Some? ==> Reparsed(s).value.Map? || Reparsed(s).value.List?
  {
    var stripped := StripRight(StripLeft(s));
    if stripped != "" && (stripped[0] == '{' || stripped[0] == '[') {
      assert SkipSpace(stripped) == stripped;
      assert ParseValue(stripped) == if stripped[0] == '{' then ParseObject(stripped) else ParseArray(stripped);
    }
  }

  lemma {:induction false} ItemAt(items: seq<Value>, i: nat)
    requires i < |items|
    ensures RedactItems(items)[i] == Redact(items[i])
  {
    if i > 0 {
      ItemAt(items[1..], i - 1);
    }
  }

  lemma {:induction false} EntryAt(entries: seq<Entry>, i: nat)
    requires i < |entries|
    ensures RedactEntries(entries)[i].key == entries[i].key
    ensures !IsSensitiveKey(entries[i].key) ==> RedactEntries(entries)[i].value == Redact(entries[i].value)
  {
    if i > 0 {
      EntryAt(entries[1..], i - 1);
    }
  }

  lemma UnwrappedRedacts(v: Value)
    ensures Redact(v) == Redact(Unwrapped(v))
    ensures Unwrapped(Redact(v)) == Redact(v)
  {
    RedactionIsANormalForm(v);
  }

  lemma RedactKeepsFace(v: Value)
    ensures FaceOf(Redact(v)) == FaceOf(v)
  {
    var u := Unwrapped(v);
    UnwrappedRedacts(v);
    ReparsedIsContainer(if v.Str? then v.s else "");
    if u.Map? {
      forall i | 0 <= i < |u.entries| ensures RedactEntries(u.entries)[i].key == u.entries[i].key {
        EntryAt(u.entries, i);
      }
      assert KeysOf(RedactEntries(u.entries)) == KeysOf(u.entries);
    }
  }

  lemma RedactKeepsChild(v: Value, i: nat)
    ensures Child(Redact(v), i) == if Child(v, i).Some? then Some(Redact(Child(v, i).value)) else None
  {
    var u := Unwrapped(v);
    UnwrappedRedacts(v);
    ReparsedIsContainer(if v.Str? then v.s else "");
    if u.Map? && i < |u.entries| {
      EntryAt(u.entries, i);
    } else if u.List? && i < |First100(u.items)| {
      ItemAt(First100(u.items), i);
    }
  }

  lemma {:induction false} RedactKeepsFaces(v: Value, path: seq<nat>)
    ensures FaceAt(Redact(v), path) == FaceAt(v, path)
    decreases |path|
  {
    RedactKeepsFace(v);
    if path != [] {
      RedactKeepsChild(v, path[0]);
      if Child(v, path[0]).Some? {
        RedactKeepsFaces(Child(v, path[0]).value, path[1..]);
      }
    }
  }

  // ---------------------------------------------------------------- normal forms are known by their faces

  ghost predicate SameFaces(v: Value, w: Value) {
    forall path: seq<nat> :: FaceAt(v, path) == FaceAt(w, path)
  }

  lemma ChildrenHaveSameFaces(v: Value, w: Value, i: nat)
    requires SameFaces(v, w) && Child(v, i).Some? && Child(w, i).Some?
    ensures SameFaces(Child(v, i).value, Child(w, i).value)
  {
    forall path: seq<nat> ensures FaceAt(Child(v, i).value, path) == FaceAt(Child(w, i).value, path) {
      assert ([i] + path)[1..] == path;
      assert FaceAt(v, [i] + path) == FaceAt(w, [i] + path);
    }
  }

  lemma {:induction false} NormalFormsAreKnownByFaces(v: Value, w: Value)
    requires Normal(v) && Normal(w) && SameFaces(v, w)
    ensures v == w
    decreases v
  {
    assert FaceAt(v, []) == FaceAt(w, []);
    if v.Map? && w.Map? {
      assert |KeysOf(v.entries)| == |KeysOf(w.entries)|;
      forall i | 0 <= i < |v.entries| ensures v.entries[i] == w.entries[i] {
        assert KeysOf(v.entries)[i] == KeysOf(w.entries)[i];
        assert NormalEntry(v.entries[i]) && NormalEntry(w.entries[i]);
        if !IsSensitiveKey(v.entries[i].key) {
          ChildrenHaveSameFaces(v, w, i);
          NormalFormsAreKnownByFaces(v.entries[i].value, w.entries[i].value);
        }
      }
    } else if v.List? && w.List? {
      forall i | 0 <= i < |v.items| ensures v.items[i] == w.items[i] {
        ChildrenHaveSameFaces(v, w, i);
        NormalFormsAreKnownByFaces(v.items[i], w.items[i]);
      }
    }
  }

  /** Redaction is the one normal form that looks like the value along every path. */
  lemma RedactionIsTheNormalForm(v: Value, r: Value)
    ensures r == Redact(v) <==> Normal(r) && SameFaces(r, v)
  {
    RedactionIsANormalForm(v);
    forall path: seq<nat> ensures FaceAt(Redact(v), path) == FaceAt(v, path) {
      RedactKeepsFaces(v, path);
    }
    if Normal(r) && SameFaces(r, v) {
      forall path: seq<nat> ensures FaceAt(r, path) == FaceAt(Redact(v), path) {
        assert FaceAt(r, path) == FaceAt(v, path);
      }
      NormalFormsAreKnownByFaces(r, Redact(v));
    }
  }
}
