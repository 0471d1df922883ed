/**
  Arabic to Latin transliteration by a fixed character substitution table.

  The table maps each of 30 Arabic letters to a one- or two-letter Latin string
  (one of them to an apostrophe). The transform walks the input one code point
  at a time and appends the table entry of a mapped character, or the character
  itself for anything else.
 */
module Transliteration {
  import opened CharSets

  /** The substitution table: one Arabic code point to a short Latin string. */
  const TranslitMap: map<char, string> := map[
    '\U{0627}' := "a",  '\U{0628}' := "b",  '\U{062A}' := "t",  '\U{062B}' := "th",
    '\U{062C}' := "j",  '\U{062D}' := "h",  '\U{062E}' := "kh", '\U{062F}' := "d",
    '\U{0630}' := "dh", '\U{0631}' := "r",  '\U{0632}' := "z",  '\U{0633}' := "s",
    '\U{0634}' := "sh", '\U{0635}' := "s",  '\U{0636}' := "d",  '\U{0637}' := "t",
    '\U{0638}' := "z",  '\U{0639}' := "a",  '\U{063A}' := "gh", '\U{0641}' := "f",
    '\U{0642}' := "q",  '\U{0643}' := "k",  '\U{0644}' := "l",  '\U{0645}' := "m",
    '\U{0646}' := "n",  '\U{0647}' := "h",  '\U{0648}' := "w",  '\U{064A}' := "y",
    '\U{0621}' := "'",  '\U{0649}' := "a"
  ]

  predicate IsAscii(c: char) {
    c < '\U{0080}'
  }

  predicate AllAscii(s: string) {
    forall i | 0 <= i < |s| :: IsAscii(s[i])
  }

  lemma TableValuesShort()
    ensures forall c | c in TranslitMap :: 1 <= |TranslitMap[c]| <= 2
  {
  }

  lemma TableValuesAscii()
    ensures forall c | c in TranslitMap :: AllAscii(TranslitMap[c])
  {
  }

  lemma TableKeysNotAscii()
    ensures forall c | c in TranslitMap :: !IsAscii(c)
  {
  }

  /** Every table value is one or two ASCII characters and no key is ASCII. */
  lemma TableShape()
    ensures forall c | c in TranslitMap :: 1 <= |TranslitMap[c]| <= 2 && AllAscii(TranslitMap[c])
    ensures forall c | c in TranslitMap :: !IsAscii(c)
  {
    TableValuesShort();
    TableValuesAscii();
    TableKeysNotAscii();
  }

  /** The keys of the table in increasing order of code point. */
  const TableKeys: seq<char> := [
    '\U{0621}', '\U{0627}', '\U{0628}', '\U{062A}', '\U{062B}', '\U{062C}', '\U{062D}',
    '\U{062E}', '\U{062F}', '\U{0630}', '\U{0631}', '\U{0632}', '\U{0633}', '\U{0634}', '\U{0635}',
    '\U{0636}', '\U{0637}', '\U{0638}', '\U{0639}', '\U{063A}', '\U{0641}', '\U{0642}', '\U{0643}',
    '\U{0644}', '\U{0645}', '\U{0646}', '\U{0647}', '\U{0648}', '\U{0649}', '\U{064A}'
  ]

  /** The table has 30 distinct keys. */
  lemma TableSize()
    ensures |TranslitMap| == 30
  {
    assert Increasing(TableKeys);
    IncreasingElementsCount(TableKeys);
    assert forall c | c in TranslitMap :: c in TableKeys;
    assert forall c | c in TableKeys :: c in TranslitMap;
    assert TranslitMap.Keys == Elements(TableKeys);
  }

  /** The lookup `TRANSLIT_MAP.get(c, c)`: the table entry, or the character itself. */
  function Lookup(c: char): (r: string)
    ensures 1 <= |r| <= 2
    ensures c in TranslitMap ==> AllAscii(r)
  {
    if c in TranslitMap then TranslitMap[c] else [c]
  }

  /** The specification of the transform: the lookups of the characters, in order. */
  function Transliterate(s: string): (r: string)
    ensures |s| <= |r| <= 2 * |s|
  {
    if s == [] then [] else Transliterate(s[..|s| - 1]) + Lookup(s[|s| - 1])
  }

  /** The loop of `transliterate_text`: an accumulator extended by one lookup per character. */
  method TransliterateText(arabicText: string) returns (latinText: string)
    ensures latinText == Transliterate(arabicText)
  {
    latinText := "";
    for i := 0 to |arabicText|
      invariant latinText == Transliterate(arabicText[..i])
    {
      assert arabicText[..i + 1][..i] == arabicText[..i];
      latinText := latinText + Lookup(arabicText[i]);
    }
    assert arabicText[..|arabicText|] == arabicText;
  }

  /** The empty text, and only the empty text, transliterates to the empty text. */
  lemma TransliterateEmpty(s: string)
    ensures Transliterate(s) == [] <==> s == []
  {
  }

  /** A single character becomes its table entry, or stays itself when unmapped. */
  lemma TransliterateChar(c: char)
    ensures c in TranslitMap ==> Transliterate([c]) == TranslitMap[c]
    ensures c !in TranslitMap ==> Transliterate([c]) == [c]
  {
    assert [c][..0] == [];
  }

  /** Characters are handled independently and in order: the transform distributes over concatenation. */
  lemma {:induction false} TransliterateConcat(a: string, b: string)
    ensures Transliterate(a + b) == Transliterate(a) + Transliterate(b)
  {
    if b == [] {
      assert a + b == a;
    } else {
      var b' := b[..|b| - 1];
      assert (a + b)[..|a + b| - 1] == a + b';
      assert (a + b)[|a + b| - 1] == b[|b| - 1];
      TransliterateConcat(a, b');
    }
  }

  /** Text that holds no key of the table passes through unchanged. */
  lemma {:induction false} TransliteratePassThrough(s: string)
    requires forall i | 0 <= i < |s| :: s[i] !in TranslitMap
    ensures Transliterate(s) == s
  {
    if s != [] {
      TransliteratePassThrough(s[..|s| - 1]);
      assert s[..|s| - 1] + [s[|s| - 1]] == s;
    }
  }

  /** ASCII text passes through unchanged, since no key of the table is ASCII. */
  lemma TransliterateAscii(s: string)
    requires AllAscii(s)
    ensures Transliterate(s) == s
  {
    TableKeysNotAscii();
    TransliteratePassThrough(s);
  }

  /** No character of a transliteration is a key of the table. */
  lemma {:induction false} TransliterateHasNoKeys(s: string)
    ensures forall i | 0 <= i < |Transliterate(s)| :: Transliterate(s)[i] !in TranslitMap
  {
    if s != [] {
      var s' := s[..|s| - 1];
      var c := s[|s| - 1];
      TransliterateHasNoKeys(s');
      TableShape();
      var r := Transliterate(s);
      assert r == Transliterate(s') + Lookup(c);
      forall i | 0 <= i < |r|
        ensures r[i] !in TranslitMap
      {
        if i >= |Transliterate(s')| {
          assert r[i] == Lookup(c)[i - |Transliterate(s')|];
        }
      }
    }
  }

  /** A second pass changes nothing: the output holds only characters the table leaves alone. */
  lemma TransliterateIdempotent(s: string)
    ensures Transliterate(Transliterate(s)) == Transliterate(s)
  {
    TransliterateHasNoKeys(s);
    TransliteratePassThrough(Transliterate(s));
  }

  /** The scheme is lossy: two distinct letters (seen and sad) both become "s",
      so no decoding function can undo the transform on every input. */
  lemma TransliterateNotInvertible(decode: string -> string)
    ensures exists s :: decode(Transliterate(s)) != s
  {
    var seen, sad := "\U{0633}", "\U{0635}";
    TransliterateChar('\U{0633}');
    TransliterateChar('\U{0635}');
    assert Transliterate(seen) == Transliterate(sad) == "s";
    if decode("s") == seen {
      assert decode(Transliterate(sad)) != sad;
    } else {
      assert decode(Transliterate(seen)) != seen;
    }
  }

  /** Worked case: tha becomes the two letters "th". */
  lemma TransliterateTha()
    ensures Transliterate("\U{062B}") == "th"
  {
    TransliterateChar('\U{062B}');
  }

  /** Worked case: kha then ta becomes "kh" followed by "t". */
  lemma TransliterateKhaTa()
    ensures Transliterate("\U{062E}\U{062A}") == "kht"
  {
    TransliterateChar('\U{062E}');
    TransliterateChar('\U{062A}');
    TransliterateConcat("\U{062E}", "\U{062A}");
    assert "\U{062E}\U{062A}" == "\U{062E}" + "\U{062A}";
  }

  /** Mixed text: a letter of the table, a space and a digit become the
      letter's entry followed by the space and the digit unchanged. */
  lemma TransliterateMixed(c: char, d: char)
    requires c in TranslitMap && '0' <= d <= '9'
    ensures Transliterate([c, ' ', d]) == TranslitMap[c] + [' ', d]
  {
    var rest := [' ', d];
    assert Transliterate([c]) == TranslitMap[c] by {
      TransliterateChar(c);
    }
    assert Transliterate(rest) == rest by {
      assert IsAscii(rest[0]) && IsAscii(rest[1]);
      TransliterateAscii(rest);
    }
    assert [c, ' ', d] == [c] + rest;
    TransliterateConcat([c], rest);
  }
}
