/**
 The name decoder of main.go (`htmlUnescape`): a Go `strings.NewReplacer` over
 six fixed character references. The replacer scans left to right; at each
 position the first pair, in argument order, whose old string starts there is
 replaced and scanning resumes after it, so replaced text is never rescanned.
 */
module Unescape {
  import opened Options
  import opened TextSearch

  /** The six references the program decodes. */
  datatype Entity = Slash | Amp | Lt | Gt | Quot | Apos

  /** The reference as it appears in the page. Every one starts with '&'. */
  function Encoded(e: Entity): (r: string)
    ensures |r| >= 4 && r[0] == '&'
  {
    match e
    case Slash => "&#x2F;"
    case Amp => "&amp;"
    case Lt => "&lt;"
    case Gt => "&gt;"
    case Quot => "&quot;"
    case Apos => "&#39;"
  }

  /** The character the reference stands for. */
  function Decoded(e: Entity): char
  {
    match e
    case Slash => '/'
    case Amp => '&'
    case Lt => '<'
    case Gt => '>'
    case Quot => '"'
    case Apos => '\''
  }

  /** The order in which the pairs are passed to the replacer, which decides ties. */
  const ArgumentOrder: seq<Entity> := [Slash, Amp, Lt, Gt, Quot, Apos]

  /** The first entity at or after position `k` of the argument order whose reference starts `s`. */
  function MatchFrom(s: string, k: nat): (r: Option<Entity>)
    requires k <= |ArgumentOrder|
    ensures r.Some? ==> PrefixAt(s, Encoded(r.value), 0)
    ensures r.None? ==> forall j :: k <= j < |ArgumentOrder| ==> !PrefixAt(s, Encoded(ArgumentOrder[j]), 0)
    decreases |ArgumentOrder| - k
  {
    if k == |ArgumentOrder| then None
    else if PrefixAt(s, Encoded(ArgumentOrder[k]), 0) then Some(ArgumentOrder[k])
    else MatchFrom(s, k + 1)
  }

  /** The decoded text: one left-to-right pass, replacements are not rescanned. */
  function HtmlUnescape(s: string): (r: string)
    ensures |r| <= |s|
    ensures r == "" <==> s == ""
    decreases |s|
  {
    if |s| == 0 then ""
    else match MatchFrom(s, 0)
      case Some(e) => [Decoded(e)] + HtmlUnescape(s[|Encoded(e)|..])
      case None => [s[0]] + HtmlUnescape(s[1..])
  }

  /** No reference occurs anywhere in `s`. */
  ghost predicate NoEntity(s: string) {
    forall e: Entity, i :: !PrefixAt(s, Encoded(e), i)
  }

  /** The characters references decode to. */
  ghost predicate DecodedCharsOnly(s: string) {
    forall i :: 0 <= i < |s| ==> exists e: Entity :: s[i] == Decoded(e)
  }

  /** The reverse direction, used as a reference: each of the six characters is written as its reference. */
  function HtmlEscape(s: string): (r: string)
    ensures |r| >= |s|
  {
    if |s| == 0 then "" else EscapeChar(s[0]) + HtmlEscape(s[1..])
  }

  function EscapeChar(c: char): string {
    if c == '/' then Encoded(Slash)
    else if c == '&' then Encoded(Amp)
    else if c == '<' then Encoded(Lt)
    else if c == '>' then Encoded(Gt)
    else if c == '"' then Encoded(Quot)
    else if c == '\'' then Encoded(Apos)
    else [c]
  }

  /** The references, each written out, one after another. */
  function EncodeAll(es: seq<Entity>): string {
    if |es| == 0 then "" else Encoded(es[0]) + EncodeAll(es[1..])
  }

  /** Every entity is passed to the replacer. */
  lemma InArgumentOrder(e: Entity)
    ensures e in ArgumentOrder
  {
  }

  /** No reference is a prefix of text starting with another reference. */
  lemma {:induction false} ReferencesPrefixFree(e: Entity, f: Entity, t: string)
    requires PrefixAt(Encoded(f) + t, Encoded(e), 0)
    ensures e == f
  {
    var s := Encoded(f) + t;
    assert s[..|Encoded(e)|] == Encoded(e);
    assert Encoded(e)[1] == s[1] == Encoded(f)[1];
    assert Encoded(e)[2] == s[2] == Encoded(f)[2];
  }

  /** A reference at the front of the text is replaced by its character, whatever follows. */
  lemma {:induction false} UnescapeReference(e: Entity, t: string)
    ensures HtmlUnescape(Encoded(e) + t) == [Decoded(e)] + HtmlUnescape(t)
  {
    var s := Encoded(e) + t;
    assert s[..|Encoded(e)|] == Encoded(e);
    assert PrefixAt(s, Encoded(e), 0);
    InArgumentOrder(e);
    match MatchFrom(s, 0)
    case Some(f) =>
      ReferencesPrefixFree(f, e, t);
      assert s[|Encoded(e)|..] == t;
    case None =>
      assert false;
  }

  /** Text that does not start with '&' passes its first character through. */
  lemma UnescapePlainChar(c: char, t: string)
    requires c != '&'
    ensures HtmlUnescape([c] + t) == [c] + HtmlUnescape(t)
  {
    var s := [c] + t;
    match MatchFrom(s, 0)
    case Some(f) =>
      assert false;
    case None =>
      assert s[1..] == t;
  }

  /** An '&' that starts none of the six references is copied, and decoding continues after it. */
  lemma UnescapeBareAmpersand(t: string)
    requires forall e: Entity :: !PrefixAt("&" + t, Encoded(e), 0)
    ensures HtmlUnescape("&" + t) == "&" + HtmlUnescape(t)
  {
    var s := "&" + t;
    match MatchFrom(s, 0)
    case Some(f) =>
      assert false;
    case None =>
      assert s[1..] == t;
  }

  /** Text without '&' in front of the rest is copied unchanged. */
  lemma {:induction false} UnescapePlainPrefix(a: string, b: string)
    requires '&' !in a
    ensures HtmlUnescape(a + b) == a + HtmlUnescape(b)
    decreases |a|
  {
    if |a| > 0 {
      assert a + b == [a[0]] + (a[1..] + b);
      UnescapePlainChar(a[0], a[1..] + b);
      UnescapePlainPrefix(a[1..], b);
      calc {
        HtmlUnescape(a + b);
        HtmlUnescape([a[0]] + (a[1..] + b));
        [a[0]] + HtmlUnescape(a[1..] + b);
        [a[0]] + (a[1..] + HtmlUnescape(b));
        { assert a == [a[0]] + a[1..]; }
        a + HtmlUnescape(b);
      }
    } else {
      assert a + b == b;
    }
  }

  /** With no reference in it, the text is left as it is. */
  lemma {:induction false} UnescapeIdentity(s: string)
    requires NoEntity(s)
    ensures HtmlUnescape(s) == s
    decreases |s|
  {
    if |s| > 0 {
      NoEntityNoMatch(s);
      NoEntityInTail(s);
      UnescapeIdentity(s[1..]);
      assert s == [s[0]] + s[1..];
    }
  }

  lemma NoEntityNoMatch(s: string)
    requires NoEntity(s)
    ensures MatchFrom(s, 0).None?
  {
  }

  lemma NoEntityInTail(s: string)
    requires |s| > 0 && NoEntity(s)
    ensures NoEntity(s[1..])
  {
    forall e: Entity, i ensures !PrefixAt(s[1..], Encoded(e), i) {
      PrefixAtWithin(s, 1, |s|, Encoded(e), i);
      assert !PrefixAt(s, Encoded(e), 1 + i);
    }
  }

  /** Text without '&' holds no reference. */
  lemma NoAmpersandNoEntity(s: string)
    requires '&' !in s
    ensures NoEntity(s)
  {
    forall e: Entity, i | PrefixAt(s, Encoded(e), i) ensures false {
    }
  }

  /** Text made of the six decoded characters holds no reference. */
  lemma DecodedCharsHoldNoEntity(s: string)
    requires DecodedCharsOnly(s)
    ensures NoEntity(s)
  {
    forall e: Entity, i ensures !PrefixAt(s, Encoded(e), i) {
      MatchSecondChar(s, e, i);
      ReferenceSecondChar(e);
    }
  }

  /** A reference found in `s` puts its second character into `s`. */
  lemma MatchSecondChar(s: string, e: Entity, i: int)
    ensures PrefixAt(s, Encoded(e), i) ==> s[i + 1] == Encoded(e)[1]
  {
    if PrefixAt(s, Encoded(e), i) {
      assert s[i..i + |Encoded(e)|][1] == s[i + 1];
    }
  }

  /** The second character of a reference is never one of the decoded characters. */
  lemma ReferenceSecondChar(e: Entity)
    ensures forall f: Entity :: Decoded(f) != Encoded(e)[1]
  {
  }

  /** Decoding undoes encoding: the escaper is a right inverse of the replacer. */
  lemma {:induction false} UnescapeEscape(s: string)
    ensures HtmlUnescape(HtmlEscape(s)) == s
    decreases |s|
  {
    if |s| > 0 {
      var c, rest := s[0], s[1..];
      UnescapeEscape(rest);
      assert s == [c] + rest;
      if c == '/' { UnescapeReference(Slash, HtmlEscape(rest)); }
      else if c == '&' { UnescapeReference(Amp, HtmlEscape(rest)); }
      else if c == '<' { UnescapeReference(Lt, HtmlEscape(rest)); }
      else if c == '>' { UnescapeReference(Gt, HtmlEscape(rest)); }
      else if c == '"' { UnescapeReference(Quot, HtmlEscape(rest)); }
      else if c == '\'' { UnescapeReference(Apos, HtmlEscape(rest)); }
      else { UnescapePlainChar(c, HtmlEscape(rest)); }
    }
  }

  /** Escaped text never holds `"`, so it can stand between attribute quotes. */
  lemma {:induction false} EscapedQuoteFree(s: string)
    ensures '"' !in HtmlEscape(s)
    decreases |s|
  {
    if |s| > 0 {
      EscapedQuoteFree(s[1..]);
      assert '"' !in EscapeChar(s[0]);
    }
  }

  /** A run of references decodes to their characters, one each. */
  lemma {:induction false} UnescapeEncodeAll(es: seq<Entity>)
    ensures HtmlUnescape(EncodeAll(es)) == seq(|es|, i requires 0 <= i < |es| => Decoded(es[i]))
    decreases |es|
  {
    if |es| > 0 {
      UnescapeReference(es[0], EncodeAll(es[1..]));
      UnescapeEncodeAll(es[1..]);
    }
  }

  /** A string built only of references decodes to text in which no reference remains. */
  lemma ReferencesDecodeClean(es: seq<Entity>)
    ensures NoEntity(HtmlUnescape(EncodeAll(es)))
  {
    UnescapeEncodeAll(es);
    var d := HtmlUnescape(EncodeAll(es));
    forall i | 0 <= i < |d| ensures exists e: Entity :: d[i] == Decoded(e) {
      assert d[i] == Decoded(es[i]);
    }
    DecodedCharsHoldNoEntity(d);
  }

  /** On text made only of references, a second decoding pass changes nothing. */
  lemma DecodeReferencesTwice(es: seq<Entity>)
    ensures HtmlUnescape(HtmlUnescape(EncodeAll(es))) == HtmlUnescape(EncodeAll(es))
  {
    ReferencesDecodeClean(es);
    UnescapeIdentity(HtmlUnescape(EncodeAll(es)));
  }

  /** A reference holds '&' only in front. */
  lemma AmpersandOnlyFirst(e: Entity)
    ensures '&' !in Encoded(e)[1..]
  {
    match e
    case Slash => assert Encoded(e)[1..] == "#x2F;";
    case Amp => assert Encoded(e)[1..] == "amp;";
    case Lt => assert Encoded(e)[1..] == "lt;";
    case Gt => assert Encoded(e)[1..] == "gt;";
    case Quot => assert Encoded(e)[1..] == "quot;";
    case Apos => assert Encoded(e)[1..] == "#39;";
  }

  /** An escaped ampersand before plain text decodes to a bare ampersand before that text. */
  lemma EscapedAmpersand(t: string)
    requires '&' !in t
    ensures HtmlUnescape(Encoded(Amp) + t) == "&" + t
  {
    UnescapeReference(Amp, t);
    NoAmpersandNoEntity(t);
    UnescapeIdentity(t);
  }

  /**
   Replaced text is not rescanned: an escaped ampersand followed by the rest
   of a reference decodes to that reference (`&amp;lt;` gives `&lt;`).
   */
  lemma NoRescan(e: Entity)
    ensures HtmlUnescape(Encoded(Amp) + Encoded(e)[1..]) == Encoded(e)
  {
    var rest := Encoded(e)[1..];
    AmpersandOnlyFirst(e);
    EscapedAmpersand(rest);
    assert Encoded(e) == [Encoded(e)[0]] + rest;
  }

  /** One reference between plain text: only the reference is replaced. */
  lemma UnescapeAmidPlainText(a: string, e: Entity, b: string)
    requires '&' !in a && '&' !in b
    ensures HtmlUnescape(a + Encoded(e) + b) == a + [Decoded(e)] + b
  {
    assert a + Encoded(e) + b == a + (Encoded(e) + b);
    UnescapePlainPrefix(a, Encoded(e) + b);
    UnescapeReference(e, b);
    NoAmpersandNoEntity(b);
    UnescapeIdentity(b);
  }

  /** The name of the example listing decodes as expected. */
  lemma AmpersandInName()
    ensures HtmlUnescape("A " + Encoded(Amp) + " B") == "A & B"
  {
    UnescapeAmidPlainText("A ", Amp, " B");
  }
}
