/**
 * Escaping of an XML attribute value, as consumed by the attribute serialiser:
 * each of the five XML-significant characters is replaced by its named entity
 * reference, and every other character is copied through in order.
 *
 * Besides the escaper itself, the module defines its inverse (Unescape) and the
 * set of strings the escaper can produce (WellEscaped), and proves that the two
 * form a bijection between all strings and the well-escaped ones.
 */
module XmlEscape {

  /** The characters that must not appear literally inside a quoted attribute value. */
  predicate IsMarkup(c: char) {
    c == '&' || c == '<' || c == '>' || c == '"' || c == '\''
  }

  /** The markup characters other than '&': they never appear in escaped text at all. */
  predicate IsBareMarkup(c: char) {
    c == '<' || c == '>' || c == '"' || c == '\''
  }

  /** The replacement text of one character. */
  function EscapeChar(c: char): (r: string)
    ensures !IsMarkup(c) ==> r == [c]
    ensures IsMarkup(c) ==> 4 <= |r| <= 6 && r[0] == '&' && r[|r| - 1] == ';'
    ensures forall i :: 0 <= i < |r| ==> !IsBareMarkup(r[i])
    ensures forall i :: 0 < i < |r| ==> r[i] != '&'
  {
    match c
    case '&' => "&amp;"
    case '<' => "&lt;"
    case '>' => "&gt;"
    case '"' => "&quot;"
    case '\'' => "&apos;"
    case _ => [c]
  }

  /** escape_str_attribute: the character-by-character replacement of a whole value. */
  function Escape(s: string): string
  {
    if s == [] then [] else EscapeChar(s[0]) + Escape(s[1..])
  }

  /**
   * Reads the character that the head of `t` stands for and how many
   * characters of `t` it occupies: one of the five entity references, or a
   * single literal character. An '&' that starts no known reference is read
   * literally.
   */
  function DecodeHead(t: string): (r: (char, nat))
    requires t != []
    ensures 1 <= r.1 <= |t|
    ensures r.1 == 1 ==> r.0 == t[0]
    ensures r.1 > 1 ==> IsMarkup(r.0) && t[..r.1] == EscapeChar(r.0)
  {
    if "&amp;" <= t then ('&', 5)
    else if "&lt;" <= t then ('<', 4)
    else if "&gt;" <= t then ('>', 4)
    else if "&quot;" <= t then ('"', 6)
    else if "&apos;" <= t then ('\'', 6)
    else (t[0], 1)
  }

  /** The inverse of Escape: replaces every entity reference by its character. */
  function Unescape(t: string): string
    decreases |t|
  {
    if t == [] then []
    else
      var (c, n) := DecodeHead(t);
      [c] + Unescape(t[n..])
  }

  /**
   * The strings Escape can produce: read from the left, every piece is either
   * an entity reference or a character that needs no escaping.
   */
  predicate WellEscaped(t: string)
    decreases |t|
  {
    if t == [] then true
    else
      var (c, n) := DecodeHead(t);
      (n > 1 || !IsMarkup(c)) && WellEscaped(t[n..])
  }

  /** The escape of one character is read back as that character, whatever follows it. */
  lemma DecodeHeadEscapeChar(c: char, rest: string)
    ensures DecodeHead(EscapeChar(c) + rest) == (c, |EscapeChar(c)|)
  {
    var t := EscapeChar(c) + rest;
    assert t[..|EscapeChar(c)|] == EscapeChar(c);
    if !IsMarkup(c) {
      assert t[0] == c;
      assert !("&amp;" <= t) && !("&lt;" <= t) && !("&gt;" <= t);
      assert !("&quot;" <= t) && !("&apos;" <= t);
    } else if c == '<' {
      assert !("&amp;" <= t) by { assert t[1] == 'l'; }
    } else if c == '>' {
      assert !("&amp;" <= t) by { assert t[1] == 'g'; }
      assert !("&lt;" <= t) by { assert t[1] == 'g'; }
    } else if c == '"' {
      assert !("&amp;" <= t) by { assert t[1] == 'q'; }
      assert !("&lt;" <= t) by { assert t[1] == 'q'; }
      assert !("&gt;" <= t) by { assert t[1] == 'q'; }
    } else if c == '\'' {
      assert !("&amp;" <= t) by { assert t[2] == 'p'; }
      assert !("&lt;" <= t) by { assert t[1] == 'a'; }
      assert !("&gt;" <= t) by { assert t[1] == 'a'; }
      assert !("&quot;" <= t) by { assert t[1] == 'a'; }
    }
  }

  /** Escaping distributes over concatenation. */
  lemma {:induction false} EscapeAppend(a: string, b: string)
    ensures Escape(a + b) == Escape(a) + Escape(b)
  {
    if a == [] {
      assert a + b == b;
    } else {
      assert (a + b)[0] == a[0];
      assert (a + b)[1..] == a[1..] + b;
      EscapeAppend(a[1..], b);
    }
  }

  /** Escaping a string that starts with `c` starts with the replacement of `c`. */
  lemma EscapeCons(c: char, s: string)
    ensures Escape([c] + s) == EscapeChar(c) + Escape(s)
  {
    assert ([c] + s)[0] == c;
    assert ([c] + s)[1..] == s;
  }

  /**
   * Escaping keeps the order of the characters: the replacement of s[i] sits,
   * in Escape(s), right after the escape of the characters before it.
   */
  lemma EscapeAt(s: string, i: nat)
    requires i < |s|
    ensures var lo, hi := |Escape(s[..i])|, |Escape(s[..i + 1])|;
            lo < hi <= |Escape(s)| && Escape(s)[lo..hi] == EscapeChar(s[i])
  {
    assert s == s[..i] + [s[i]] + s[i + 1..];
    assert s[..i + 1] == s[..i] + [s[i]];
    EscapeAppend(s[..i] + [s[i]], s[i + 1..]);
    EscapeAppend(s[..i], [s[i]]);
    assert Escape([s[i]]) == EscapeChar(s[i]) + Escape([]);
  }

  /** The five replacements, and the pass-through of every other character. */
  lemma EscapeSingle(c: char)
    ensures c == '&' ==> Escape([c]) == "&amp;"
    ensures c == '<' ==> Escape([c]) == "&lt;"
    ensures c == '>' ==> Escape([c]) == "&gt;"
    ensures c == '"' ==> Escape([c]) == "&quot;"
    ensures c == '\'' ==> Escape([c]) == "&apos;"
    ensures !IsMarkup(c) ==> Escape([c]) == [c]
  {
    assert [c][1..] == [];
  }

  /** An escaped value never contains a literal '<', '>', '"' or '\''. */
  lemma {:induction false} EscapeHasNoBareMarkup(s: string)
    ensures forall i :: 0 <= i < |Escape(s)| ==> !IsBareMarkup(Escape(s)[i])
  {
    if s != [] {
      EscapeHasNoBareMarkup(s[1..]);
      var e, rest := EscapeChar(s[0]), Escape(s[1..]);
      forall i | 0 <= i < |e + rest| ensures !IsBareMarkup((e + rest)[i]) {
        if i >= |e| {
          assert (e + rest)[i] == rest[i - |e|];
        }
      }
    }
  }

  /** Every escaped value is well escaped: each '&' in it begins an entity reference. */
  lemma {:induction false} EscapeIsWellEscaped(s: string)
    ensures WellEscaped(Escape(s))
  {
    if s != [] {
      var e, rest := EscapeChar(s[0]), Escape(s[1..]);
      DecodeHeadEscapeChar(s[0], rest);
      assert (e + rest)[|e|..] == rest;
      EscapeIsWellEscaped(s[1..]);
    }
  }

  /** Unescaping undoes escaping: no information about the raw value is lost. */
  lemma {:induction false} UnescapeEscape(s: string)
    ensures Unescape(Escape(s)) == s
  {
    if s != [] {
      var e, rest := EscapeChar(s[0]), Escape(s[1..]);
      var t := e + rest;
      assert Escape(s) == t;
      DecodeHeadEscapeChar(s[0], rest);
      assert t[|e|..] == rest;
      assert Unescape(t) == [s[0]] + Unescape(rest);
      UnescapeEscape(s[1..]);
      assert s == [s[0]] + s[1..];
    }
  }

  /** Escaping undoes unescaping on every well-escaped string. */
  lemma {:induction false} EscapeUnescape(t: string)
    requires WellEscaped(t)
    ensures Escape(Unescape(t)) == t
    decreases |t|
  {
    if t != [] {
      var (c, n) := DecodeHead(t);
      var u := Unescape(t[n..]);
      assert Unescape(t) == [c] + u;
      EscapeCons(c, u);
      EscapeUnescape(t[n..]);
      assert t == t[..n] + t[n..];
    }
  }

  /** Escaping is injective: distinct raw values never escape to the same text. */
  lemma EscapeInjective(a: string, b: string)
    ensures Escape(a) == Escape(b) <==> a == b
  {
    UnescapeEscape(a);
    UnescapeEscape(b);
  }

  /** A value is left unchanged by escaping exactly when it holds none of the five characters. */
  lemma {:induction false} EscapeIdentity(s: string)
    ensures Escape(s) == s <==> forall i :: 0 <= i < |s| ==> !IsMarkup(s[i])
  {
    if s != [] {
      EscapeIdentity(s[1..]);
      var e, rest := EscapeChar(s[0]), Escape(s[1..]);
      if IsMarkup(s[0]) {
        EscapeLength(s[1..]);
        assert |e + rest| > |s|;
      } else {
        assert e + rest == [s[0]] + rest;
        assert s == [s[0]] + s[1..];
        if Escape(s) == s {
          assert rest == s[1..];
        }
        forall i | 0 <= i < |s| && (forall j :: 0 <= j < |s[1..]| ==> !IsMarkup(s[1..][j]))
          ensures !IsMarkup(s[i])
        {
          if i > 0 { assert s[i] == s[1..][i - 1]; }
        }
      }
    }
  }

  /** Escaping acts locally: text without markup around a part is copied through as it is. */
  lemma EscapeInPlainContext(before: string, mid: string, after: string)
    requires forall i :: 0 <= i < |before| ==> !IsMarkup(before[i])
    requires forall i :: 0 <= i < |after| ==> !IsMarkup(after[i])
    ensures Escape(before + mid + after) == before + Escape(mid) + after
  {
    EscapeIdentity(before);
    EscapeIdentity(after);
    EscapeAppend(before + mid, after);
    EscapeAppend(before, mid);
  }

  /** Escaping never shortens a value. */
  lemma {:induction false} EscapeLength(s: string)
    ensures |Escape(s)| >= |s|
  {
    if s != [] {
      EscapeLength(s[1..]);
    }
  }
}
