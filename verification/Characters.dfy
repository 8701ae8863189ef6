/** The ASCII judgements and conversions of characters that several models share. */
module Characters {
  predicate IsDigit(c: char) {
    '0' <= c <= '9'
  }

  lemma DigitsAreTen(c: char)
    ensures IsDigit(c) <==> c in "0123456789"
  {
  }

  function Lower(c: char): char {
    if 'A' <= c <= 'Z' then c - 'A' + 'a' else c
  }
}
