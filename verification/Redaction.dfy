/**
 `redact_sensitive_data` on JSON-like trees, in which every container is a separate object. A string that holds
 an object or an array is parsed and redacted in its turn.
 */
module Redaction {
  import opened Characters
  import opened Wrappers
  import opened Json

  const REDACTED := "[REDACTED]"

  const SENSITIVE_KEYS := {
    "authorization", "cookie", "set-cookie", "password", "client_secret", "access_token", "refresh_token",
    "auth_token", "token", "api_key", "apikey", "secret"
  }

  // ---------------------------------------------------------------- keys

  /** `str(key).lower().replace("-", "_")`, for ASCII letters. */
  function Normalized(key: string): (n: string)
    ensures |n| == |key|
  {
    if key == "" then ""
    else [if key[0] == '-' then '_' else Lower(key[0])] + Normalized(key[1..])
  }

  predicate EndsWith(s: string, suffix: string) {
    |s| >= |suffix| && s[|s| - |suffix|..] == suffix
  }

  predicate IsSensitiveKey(key: string) {
    Normalized(key) in SENSITIVE_KEYS || EndsWith(Normalized(key), "_token")
  }

  lemma {:induction false} NormalizedHasNoDash(key: string)
    ensures '-' !in Normalized(key)
    ensures Normalized(Normalized(key)) == Normalized(key)
  {
    if key != "" {
      NormalizedHasNoDash(key[1..]);
      assert Normalized(key)[1..] == Normalized(key[1..]);
    }
  }

  /**
   The entry "set-cookie" decides nothing: a normalized key has no dash, so the judgement is the same without it.
   Spelling and dashes never change a judgement.
   */
  lemma SetCookieNeverMatches(key: string)
    ensures IsSensitiveKey(key)
            <==> Normalized(key) in SENSITIVE_KEYS - {"set-cookie"} || EndsWith(Normalized(key), "_token")
    ensures IsSensitiveKey(Normalized(key)) == IsSensitiveKey(key)
  {
    NormalizedHasNoDash(key);
    assert "set-cookie"[3] == '-';
    assert Normalized(key) != "set-cookie";
  }

  /** So a Set-Cookie header, under any spelling, is judged harmless. */
  lemma SetCookieIsHarmless(key: string)
    requires Normalized(key) == "set_cookie"
    ensures !IsSensitiveKey(key)
  {
    assert "set-cookie"[3] != "set_cookie"[3];
    assert |"set_cookie"| == 10 && "set_cookie"[9] != "_token"[5];
    assert "auth_token"[0] != "set_cookie"[0];
    assert forall k :: k in SENSITIVE_KEYS && |k| == 10 ==> k == "set-cookie" || k == "auth_token";
  }

  // ---------------------------------------------------------------- text

  predicate IsSpace(c: char) {
    c == ' ' || 9 as char <= c <= 13 as char || 28 as char <= c <= 31 as char
  }

  function StripLeft(s: string): (t: string)
    ensures |t| <= |s|
  {
    if s != "" && IsSpace(s[0]) then StripLeft(s[1..]) else s
  }

  function StripRight(s: string): (t: string)
    ensures |t| <= |s|
  {
    if s != "" && IsSpace(s[|s| - 1]) then StripRight(s[..|s| - 1]) else s
  }

  /** What a string is read as: `None` when it is no object or array, or does not parse. */
  function Reparsed(s: string): (r: Option<Value>)
    ensures r.Some? ==> Weight(r.value) <= |s|
  {
    var stripped := StripRight(StripLeft(s));
    if stripped != "" && (stripped[0] == '{' || stripped[0] == '[') then Loads(stripped) else None
  }

  // ---------------------------------------------------------------- redaction

  function First100<T>(items: seq<T>): seq<T> {
    if |items| <= 100 then items else items[..100]
  }

  lemma {:induction false} WeightOfPrefix(items: seq<Value>, n: nat)
    requires n <= |items|
    ensures WeightOfItems(items[..n]) <= WeightOfItems(items)
  {
    if n > 0 {
      WeightOfPrefix(items[1..], n - 1);
      assert items[..n][1..] == items[1..][..n - 1];
    }
  }

  function Redact(v: Value): Value
    decreases Weight(v), 0
  {
    match v
    case Str(s) =>
      var parsed := Reparsed(s);
      if parsed.Some? then Redact(parsed.value) else v
    case Map(entries) => Map(RedactEntries(entries))
    case List(items) =>
      assert WeightOfItems(First100(items)) < Weight(v) by {
        WeightOfPrefix(items, if |items| <= 100 then |items| else 100);
      }
      List(RedactItems(First100(items)))
    case _ => v
  }

  function RedactItems(items: seq<Value>): (r: seq<Value>)
    ensures |r| == |items|
    decreases WeightOfItems(items), 1
  {
    if items == [] then [] else [Redact(items[0])] + RedactItems(items[1..])
  }

  function RedactValue(e: Entry): Value
    decreases Weight(e.value), 1
  {
    if IsSensitiveKey(e.key) then Str(REDACTED) else Redact(e.value)
  }

  function RedactEntries(entries: seq<Entry>): (r: seq<Entry>)
    ensures |r| == |entries|
    decreases WeightOfEntries(entries), 2
  {
    if entries == [] then [] else [Entry(entries[0].key, RedactValue(entries[0]))] + RedactEntries(entries[1..])
  }

  // ---------------------------------------------------------------- the normal form

  /** Nothing left to redact: no string reads as a container, no long list, no secret. */
  predicate Normal(v: Value)
    decreases v
  {
    match v
    case Str(s) => Reparsed(s).None?
    case Map(entries) => forall i :: 0 <= i < |entries| ==> NormalEntry(entries[i])
    case List(items) => |items| <= 100 && forall i :: 0 <= i < |items| ==> Normal(items[i])
    case _ => true
  }

  predicate NormalEntry(e: Entry)
    decreases e
  {
    Normal(e.value) && (IsSensitiveKey(e.key) ==> e.value == Str(REDACTED))
  }

  /** Nothing that starts with "R" is a JSON value. */
  lemma NoWordStartsWithR(s: string)
    requires s != "" && s[0] == 'R'
    ensures ParseValue(s).None? && ParseItems(s).None? && SkipSpace(s) == s
  {
    assert Digits(s[0..]) == 0 by { assert s[0..] == s; }
    assert NumberLength(s) == 0;
  }

  /** The marker looks like an array but does not parse, so it is itself normal. */
  lemma MarkerIsNoArray()
    ensures Reparsed(REDACTED).None?
  {
    var inner := REDACTED[1..];
    assert inner[0] == 'R';
    NoWordStartsWithR(inner);
    assert SkipSpace(REDACTED) == REDACTED;
    assert ParseValue(REDACTED).None?;
    assert StripLeft(REDACTED) == REDACTED && StripRight(REDACTED) == REDACTED;
  }

  lemma {:induction false} RedactIsNormal(v: Value)
    ensures Normal(Redact(v))
    decreases Weight(v), 0
  {
    match v
    case Str(s) =>
      var parsed := Reparsed(s);
      if parsed.Some? {
        RedactIsNormal(parsed.value);
      }
    case Map(entries) => EntriesAreNormal(entries);
    case List(items) =>
      WeightOfPrefix(items, if |items| <= 100 then |items| else 100);
      ItemsAreNormal(First100(items));
    case _ =>
  }

  lemma {:induction false} ItemsAreNormal(items: seq<Value>)
    ensures forall i :: 0 <= i < |items| ==> Normal(RedactItems(items)[i])
    decreases WeightOfItems(items), 1
  {
    if items != [] {
      RedactIsNormal(items[0]);
      ItemsAreNormal(items[1..]);
    }
  }

  lemma {:induction false} EntriesAreNormal(entries: seq<Entry>)
    ensures forall i :: 0 <= i < |entries| ==> NormalEntry(RedactEntries(entries)[i])
    decreases WeightOfEntries(entries), 1
  {
    if entries != [] {
      RedactIsNormal(entries[0].value);
      MarkerIsNoArray();
      EntriesAreNormal(entries[1..]);
    }
  }

  lemma {:induction false} NormalIsUnchanged(v: Value)
    requires Normal(v)
    ensures Redact(v) == v
    decreases Weight(v), 0
  {
    match v
    case Map(entries) => NormalEntriesAreUnchanged(entries);
    case List(items) => NormalItemsAreUnchanged(items);
    case _ =>
  }

  lemma {:induction false} NormalItemsAreUnchanged(items: seq<Value>)
    requires forall i :: 0 <= i < |items| ==> Normal(items[i])
    ensures RedactItems(items) == items
    decreases WeightOfItems(items), 1
  {
    if items != [] {
      NormalIsUnchanged(items[0]);
      NormalItemsAreUnchanged(items[1..]);
    }
  }

  lemma {:induction false} NormalEntriesAreUnchanged(entries: seq<Entry>)
    requires forall i :: 0 <= i < |entries| ==> NormalEntry(entries[i])
    ensures RedactEntries(entries) == entries
    decreases WeightOfEntries(entries), 1
  {
    if entries != [] {
      if !IsSensitiveKey(entries[0].key) {
        NormalIsUnchanged(entries[0].value);
      }
      NormalEntriesAreUnchanged(entries[1..]);
    }
  }

  /**
   The result of redaction is a normal form, the normal forms are exactly the values redaction leaves alone, and
   a second pass changes nothing.
   */
  lemma RedactionIsANormalForm(v: Value)
    ensures Normal(Redact(v))
    ensures Normal(v) <==> Redact(v) == v
    ensures Redact(Redact(v)) == Redact(v)
  {
    RedactIsNormal(v);
    if Normal(v) {
      NormalIsUnchanged(v);
    }
    NormalIsUnchanged(Redact(v));
  }

  // ---------------------------------------------------------------- what cannot matter

  /**
   `v` and `w` differ at most in values under sensitive keys, behind the hundredth item of a list, and in how the
   text of an embedded object or array is written.
   */
  ghost predicate SameOutside(v: Value, w: Value)
    decreases Weight(v) + Weight(w), 0
  {
    if v.Str? && Reparsed(v.s).Some? then SameOutside(Reparsed(v.s).value, w)
    else if w.Str? && Reparsed(w.s).Some? then SameOutside(v, Reparsed(w.s).value)
    else if v.Map? && w.Map? then SameEntries(v.entries, w.entries)
    else if v.List? && w.List? then
      WeightOfPrefix(v.items, |First100(v.items)|);
      WeightOfPrefix(w.items, |First100(w.items)|);
      SameItems(First100(v.items), First100(w.items))
    else v == w
  }

  ghost predicate SameItems(a: seq<Value>, b: seq<Value>)
    decreases WeightOfItems(a) + WeightOfItems(b), 1
  {
    if a == [] || b == [] then a == b else SameOutside(a[0], b[0]) && SameItems(a[1..], b[1..])
  }

  ghost predicate SameEntries(a: seq<Entry>, b: seq<Entry>)
    decreases WeightOfEntries(a) + WeightOfEntries(b), 1
  {
    if a == [] || b == [] then a == b
    else
      && a[0].key == b[0].key
      && (!IsSensitiveKey(a[0].key) ==> SameOutside(a[0].value, b[0].value))
      && SameEntries(a[1..], b[1..])
  }

  /** No secret reaches the result: values that agree outside the secrets are redacted to the same value. */
  lemma {:induction false} SecretsDoNotMatter(v: Value, w: Value)
    requires SameOutside(v, w)
    ensures Redact(v) == Redact(w)
    decreases Weight(v) + Weight(w), 0
  {
    if v.Str? && Reparsed(v.s).Some? {
      SecretsDoNotMatter(Reparsed(v.s).value, w);
    } else if w.Str? && Reparsed(w.s).Some? {
      SecretsDoNotMatter(v, Reparsed(w.s).value);
    } else if v.Map? && w.Map? {
      SecretsDoNotMatterInEntries(v.entries, w.entries);
    } else if v.List? && w.List? {
      WeightOfPrefix(v.items, |First100(v.items)|);
      WeightOfPrefix(w.items, |First100(w.items)|);
      SecretsDoNotMatterInItems(First100(v.items), First100(w.items));
    }
  }

  lemma {:induction false} SecretsDoNotMatterInItems(a: seq<Value>, b: seq<Value>)
    requires SameItems(a, b)
    ensures RedactItems(a) == RedactItems(b)
    decreases WeightOfItems(a) + WeightOfItems(b), 1
  {
    if a != [] && b != [] {
      SecretsDoNotMatter(a[0], b[0]);
      SecretsDoNotMatterInItems(a[1..], b[1..]);
    }
  }

  lemma {:induction false} SecretsDoNotMatterInEntries(a: seq<Entry>, b: seq<Entry>)
    requires SameEntries(a, b)
    ensures RedactEntries(a) == RedactEntries(b)
    decreases WeightOfEntries(a) + WeightOfEntries(b), 1
  {
    if a != [] && b != [] {
      if !IsSensitiveKey(a[0].key) {
        SecretsDoNotMatter(a[0].value, b[0].value);
      }
      SecretsDoNotMatterInEntries(a[1..], b[1..]);
    }
  }
}
