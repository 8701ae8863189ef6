/** The rules of redaction spelled out: which keys are masked, with what, and what else is cut. */
module RedactionRules {
  import opened Characters
  import opened Json
  import opened Redaction
  import opened RedactionFaces

  // ---------------------------------------------------------------- spellings of keys

  /** Equal up to ASCII case and up to dash for underscore. */
  predicate AlikeChar(a: char, b: char) {
    || a == b
    || ('A' <= a <= 'Z' && b as int == a as int + 32)
    || ('A' <= b <= 'Z' && a as int == b as int + 32)
    || (a in "-_" && b in "-_")
  }

  predicate Alike(a: string, b: string) {
    |a| == |b| && forall i :: 0 <= i < |a| ==> AlikeChar(a[i], b[i])
  }

  lemma {:induction false} NormalizedAt(key: string, i: nat)
    requires i < |key|
    ensures Normalized(key)[i] == if key[i] == '-' then '_' else Lower(key[i])
  {
    if i > 0 {
      NormalizedAt(key[1..], i - 1);
    }
  }

  lemma AlikeIsSameNormalForm(a: string, b: string)
    ensures Alike(a, b) <==> Normalized(a) == Normalized(b)
  {
    if |a| == |b| {
      forall i | 0 <= i < |a|
        ensures AlikeChar(a[i], b[i]) <==> Normalized(a)[i] == Normalized(b)[i]
      {
        NormalizedAt(a, i);
        NormalizedAt(b, i);
      }
    }
  }

  /** A word in which nothing is left to normalize. */
  predicate Plain(word: string) {
    forall i :: 0 <= i < |word| ==> 'a' <= word[i] <= 'z' || word[i] == '_'
  }

  lemma PlainWord(key: string, word: string)
    requires Plain(word)
    ensures Alike(key, word) <==> Normalized(key) == word
  {
    AlikeIsSameNormalForm(key, word);
    forall i | 0 <= i < |word| ensures Normalized(word)[i] == word[i] {
      NormalizedAt(word, i);
    }
  }

  lemma {:induction false} NormalizedFrom(key: string, k: nat)
    requires k <= |key|
    ensures Normalized(key[k..]) == Normalized(key)[k..]
  {
    if k > 0 {
      NormalizedFrom(key[1..], k - 1);
      assert key[1..][k - 1..] == key[k..];
    }
  }

  lemma PlainSuffix(key: string, word: string)
    requires Plain(word)
    ensures EndsWith(Normalized(key), word) <==> |key| >= |word| && Alike(key[|key| - |word|..], word)
  {
    if |key| >= |word| {
      NormalizedFrom(key, |key| - |word|);
      PlainWord(key[|key| - |word|..], word);
    }
  }

  const WORDS: seq<string> := [
    "authorization", "cookie", "password", "client_secret", "access_token", "refresh_token", "auth_token", "token",
    "api_key", "apikey", "secret"]

  lemma WordsArePlain()
    ensures forall i :: 0 <= i < |WORDS| ==> Plain(WORDS[i])
    ensures forall word :: word in WORDS <==> word in SENSITIVE_KEYS - {"set-cookie"}
  {
  }

  /** A key is sensitive exactly if it is spelled like one of these words, or ends like "_token". */
  lemma SensitiveSpellings(key: string)
    ensures IsSensitiveKey(key) <==>
            || (exists word :: word in [
                  "authorization", "cookie", "password", "client_secret", "access_token", "refresh_token",
                  "auth_token", "token", "api_key", "apikey", "secret"] && Alike(key, word))
            || (|key| >= 6 && Alike(key[|key| - 6..], "_token"))
  {
    SetCookieNeverMatches(key);
    assert |"_token"| == 6;
    PlainSuffix(key, "_token");
    WordsArePlain();
    forall word | word in WORDS ensures Alike(key, word) <==> Normalized(key) == word {
      PlainWord(key, word);
    }
    if Normalized(key) in SENSITIVE_KEYS - {"set-cookie"} {
      assert Normalized(key) in WORDS && Alike(key, Normalized(key));
    }
  }

  /** Two spellings of one key are judged alike. */
  lemma SpellingDoesNotMatter(a: string, b: string)
    requires Alike(a, b)
    ensures IsSensitiveKey(a) <==> IsSensitiveKey(b)
  {
    AlikeIsSameNormalForm(a, b);
  }

  // ---------------------------------------------------------------- what becomes of entries and items

  /** Every entry keeps its place and its key; its value is the marker if the key is sensitive, and else redacted. */
  lemma EntriesByKey(entries: seq<Entry>, i: nat)
    requires i < |entries|
    ensures Redact(Map(entries)).Map? && |Redact(Map(entries)).entries| == |entries|
    ensures Redact(Map(entries)).entries[i].key == entries[i].key
    ensures Redact(Map(entries)).entries[i].value
            == if IsSensitiveKey(entries[i].key) then Str("[REDACTED]") else Redact(entries[i].value)
  {
    EntryAt(entries, i);
    RedactIsNormal(Map(entries));
    assert NormalEntry(RedactEntries(entries)[i]);
  }

  /** Whatever stands under one of the listed words, in any spelling, or under a key that ends like "_token". */
  lemma ListedKeysAreMasked(key: string, word: string, v: Value)
    requires || (Alike(key, word) && word in [
                   "authorization", "cookie", "password", "client_secret", "access_token", "refresh_token",
                   "auth_token", "token", "api_key", "apikey", "secret"])
             || (|key| >= 6 && Alike(key[|key| - 6..], "_token"))
    ensures Redact(Map([Entry(key, v)])) == Map([Entry(key, Str("[REDACTED]"))])
  {
    SensitiveSpellings(key);
    EntriesByKey([Entry(key, v)], 0);
  }

  /** The first hundred items of a list are redacted in place, the others dropped. */
  lemma ItemsUpToAHundred(items: seq<Value>, i: nat)
    requires i < |items| && i < 100
    ensures Redact(List(items)).List?
    ensures |Redact(List(items)).items| == if |items| < 100 then |items| else 100
    ensures Redact(List(items)).items[i] == Redact(items[i])
  {
    ItemAt(First100(items), i);
  }
}
