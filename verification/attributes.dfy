/**
 Attribute extraction by substring search (main.go `extractAttr`): the text
 between the first occurrence of a marker such as `data-listing-id="` and the
 next double quote.
 */
module Attributes {
  import opened Options
  import opened TextSearch

  const Quote := "\""

  /**
   The quoted value after the first occurrence of `prefix`, or "" when the
   prefix does not occur or no quote follows its first occurrence.
   */
  function ExtractAttr(s: string, prefix: string): (r: string)
    ensures '"' !in r
    ensures !Occurs(s, prefix) ==> r == ""
    ensures forall i :: FirstOccurrence(s, prefix, i) ==>
              if '"' in s[i + |prefix|..] then PrefixAt(s, prefix + r + Quote, i) else r == ""
  {
    match IndexOf(s, prefix)
    case None => ""
    case Some(idx) =>
      var start := idx + |prefix|;
      var tail := s[start..];
      CharSearch(tail, '"');
      match IndexOf(tail, Quote)
      case None => ""
      case Some(end) =>
        ValueBeforeQuote(s, prefix, idx, end);
        s[start..start + end]
  }

  /** The bookkeeping behind `ExtractAttr`'s contract in the case where a quote follows the prefix. */
  lemma ValueBeforeQuote(s: string, prefix: string, idx: nat, end: nat)
    requires FirstOccurrence(s, prefix, idx)
    requires FirstOccurrence(s[idx + |prefix|..], Quote, end)
    ensures idx + |prefix| + end < |s|
    ensures '"' !in s[idx + |prefix|..idx + |prefix| + end]
    ensures PrefixAt(s, prefix + s[idx + |prefix|..idx + |prefix| + end] + Quote, idx)
    ensures forall i :: FirstOccurrence(s, prefix, i) ==> i == idx
  {
    var start := idx + |prefix|;
    var tail := s[start..];
    CharSearch(tail, '"');
    var v := s[start..start + end];
    assert tail[end] == '"';
    forall m | 0 <= m < |v| ensures v[m] != '"' {
      assert v[m] == tail[m];
    }
    assert s[idx..idx + |prefix|] == prefix;
    assert s[idx..start + end + 1] == s[idx..start] + v + [s[start + end]];
  }

  /**
   Rendering a value after its marker and extracting it again gives the value
   back, provided the marker first occurs where it was placed and the value has
   no quote.
   */
  lemma ExtractRendered(a: string, prefix: string, v: string, b: string)
    requires FirstOccurrence(a + prefix, prefix, |a|)
    requires '"' !in v
    ensures ExtractAttr(a + prefix + v + Quote + b, prefix) == v
  {
    var s := a + prefix + v + Quote + b;
    FirstOccurrenceExtends(a + prefix, v + Quote + b, prefix, |a|);
    assert (a + prefix) + (v + Quote + b) == s;
    IndexOfFinds(s, prefix, |a|);
    var start := |a| + |prefix|;
    var tail := s[start..];
    assert tail == v + Quote + b;
    QuoteAfterValue(v, b);
    assert s[start..start + |v|] == v;
  }

  /** The first quote of `v + Quote + b` is the one placed after a quote-free `v`. */
  lemma QuoteAfterValue(v: string, b: string)
    requires '"' !in v
    ensures IndexOf(v + Quote + b, Quote) == Some(|v|)
  {
    var t := v + Quote + b;
    CharSearch(t, '"');
    forall j | 0 <= j < |v| ensures !PrefixAt(t, Quote, j) {
      assert t[j] == v[j];
    }
    assert t[|v|] == '"';
    IndexOfFinds(t, Quote, |v|);
  }
}
