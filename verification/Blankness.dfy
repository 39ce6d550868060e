/** Which uris name a row: `blankness` and its three regular expressions. */
module Blankness {
  import opened Texts

  datatype Kind = Named | Blank | Ambiguous

  predicate AllHex(s: string) {
    forall i :: 0 <= i < |s| ==> Hex(s[i])
  }

  /** What `$` lets stand before it: the text, or the text before one closing line feed. */
  function Body(uri: string): string {
    if uri != [] && uri[|uri| - 1] == '\n' then uri[..|uri| - 1] else uri
  }

  /** `^N[0-9a-f]{32}$`. */
  predicate Rdflib(uri: string) {
    var s := Body(uri);
    |s| == 33 && s[0] == 'N' && AllHex(s[1..])
  }

  /** `^n[0-9a-f]{32}b246$`. */
  predicate B246(uri: string) {
    var s := Body(uri);
    |s| == 37 && s[0] == 'n' && AllHex(s[1..33]) && s[33..] == ['b', '2', '4', '6']
  }

  /** `^[Nn][0-9a-f]{20,}$`. */
  predicate Loose(uri: string) {
    var s := Body(uri);
    |s| >= 21 && s[0] in {'N', 'n'} && AllHex(s[1..])
  }

  function KindOf(uri: string): Kind {
    if Rdflib(uri) || B246(uri) then Blank
    else if Loose(uri) then Ambiguous
    else Named
  }

  /** A closing line feed is no part of a spelling, and a named uri is one the loose form refuses. */
  lemma KindsPartition(uri: string)
    ensures KindOf(uri) == Named <==> !Loose(uri)
    ensures KindOf(uri) == Blank <==> Loose(uri) && (Rdflib(uri) || B246(uri))
    ensures KindOf(Body(uri)) == KindOf(uri) || (Body(uri) != [] && Body(uri)[|Body(uri)| - 1] == '\n')
  {
    if B246(uri) {
      var s := Body(uri);
      forall i | 0 <= i < |s| - 1 ensures Hex(s[1..][i]) {
        if i < 32 {
          assert s[1..33][i] == s[1..][i];
        } else {
          assert s[33..][i - 32] == s[1..][i];
        }
      }
    }
  }

  // ---- the spellings, written out

  ghost predicate HexDigits(s: string) {
    forall i :: 0 <= i < |s| ==> '0' <= s[i] <= '9' || 'a' <= s[i] <= 'f'
  }

  /** The uri is this text, whether or not a line feed follows. */
  ghost predicate Reads(uri: string, text: string) {
    uri == text || uri == text + "\n"
  }

  /** `N` and 32 digits, or `n`, 32 digits and `b246`. */
  ghost predicate KnownBlank(uri: string, hex: string) {
    |hex| == 32 && HexDigits(hex) && (Reads(uri, "N" + hex) || Reads(uri, "n" + hex + "b246"))
  }

  /** Either letter and 20 digits or more. */
  ghost predicate LooksBlank(uri: string, hex: string) {
    |hex| >= 20 && HexDigits(hex) && (Reads(uri, "N" + hex) || Reads(uri, "n" + hex))
  }

  lemma BodyReads(uri: string, text: string)
    requires text != [] && text[|text| - 1] != '\n'
    ensures Reads(uri, text) <==> Body(uri) == text
  {
    if uri != [] && uri[|uri| - 1] == '\n' {
      assert uri == uri[..|uri| - 1] + "\n";
    }
    assert (text + "\n")[..|text|] == text;
  }

  lemma DigitsEnd(letter: string, hex: string, more: string)
    requires |letter| == 1 && |hex| > 0 && HexDigits(hex) && (more == [] || more[|more| - 1] != '\n')
    ensures var s := letter + hex + more;
      && s[|s| - 1] != '\n' && s[0] == letter[0] && s[1..] == hex + more
      && s[1..|hex| + 1] == hex && s[|hex| + 1..] == more
  {
  }

  lemma KnownExactly(uri: string)
    ensures Rdflib(uri) || B246(uri) <==> exists hex :: KnownBlank(uri, hex)
  {
    if Rdflib(uri) {
      RdflibSpelt(uri);
    }
    if B246(uri) {
      B246Spelt(uri);
    }
    if hex :| KnownBlank(uri, hex) {
      SpeltKnown(uri, hex);
    }
  }

  lemma RdflibSpelt(uri: string)
    requires Rdflib(uri)
    ensures exists hex :: KnownBlank(uri, hex)
  {
    var s := Body(uri);
    DigitsEnd("N", s[1..], "");
    assert s == "N" + s[1..] + "" && "N" + s[1..] + "" == "N" + s[1..];
    BodyReads(uri, "N" + s[1..]);
    assert KnownBlank(uri, s[1..]);
  }

  lemma B246Spelt(uri: string)
    requires B246(uri)
    ensures exists hex :: KnownBlank(uri, hex)
  {
    var s := Body(uri);
    DigitsEnd("n", s[1..33], "b246");
    assert s == "n" + s[1..33] + "b246";
    BodyReads(uri, "n" + s[1..33] + "b246");
    assert KnownBlank(uri, s[1..33]);
  }

  lemma SpeltKnown(uri: string, hex: string)
    requires KnownBlank(uri, hex)
    ensures Rdflib(uri) || B246(uri)
  {
    if Reads(uri, "N" + hex) {
      DigitsEnd("N", hex, "");
      assert "N" + hex + "" == "N" + hex;
      BodyReads(uri, "N" + hex);
    } else {
      DigitsEnd("n", hex, "b246");
      BodyReads(uri, "n" + hex + "b246");
    }
  }

  lemma LooseExactly(uri: string)
    ensures Loose(uri) <==> exists hex :: LooksBlank(uri, hex)
  {
    var s := Body(uri);
    if Loose(uri) {
      assert s == [s[0]] + s[1..] && (s[0] == 'N' ==> [s[0]] == "N") && (s[0] == 'n' ==> [s[0]] == "n");
      DigitsEnd([s[0]], s[1..], "");
      assert [s[0]] + s[1..] + "" == [s[0]] + s[1..];
      BodyReads(uri, [s[0]] + s[1..]);
      assert LooksBlank(uri, s[1..]);
    }
    if hex :| LooksBlank(uri, hex) {
      DigitsEnd("N", hex, "");
      DigitsEnd("n", hex, "");
      assert "N" + hex + "" == "N" + hex && "n" + hex + "" == "n" + hex;
      BodyReads(uri, "N" + hex);
      BodyReads(uri, "n" + hex);
    }
  }

  /** A uri is blank in either known spelling, undecided when it only looks blank, and named else. */
  lemma KindExactly(uri: string)
    ensures KindOf(uri) == Blank <==> exists hex :: KnownBlank(uri, hex)
    ensures KindOf(uri) == Named <==> !exists hex :: LooksBlank(uri, hex)
  {
    KnownExactly(uri);
    LooseExactly(uri);
    KindsPartition(uri);
    hide Rdflib, B246, Loose, KnownBlank, LooksBlank;
  }

  /** What is left undecided: a loose blank of any length but 32 digits after `N`, or not ending `b246` after `n`. */
  lemma AmbiguousExactly(uri: string)
    requires Loose(uri)
    ensures var s := Body(uri);
      KindOf(uri) == Ambiguous <==>
        if s[0] == 'N' then |s| != 33 else |s| != 37 || s[33..] != ['b', '2', '4', '6']
  {
    var s := Body(uri);
    if |s| == 37 {
      forall i | 0 <= i < 32 ensures Hex(s[1..33][i]) {
        assert s[1..33][i] == s[1..][i];
      }
    }
  }
}
