/** `load_domains`: the comma- or newline-separated domain list from the
    configuration, as an ordered list of trimmed, non-empty domains. The
    configuration string is a parameter here rather than read from the
    environment. */
module Domains {
  import opened Text

  /** `raw.replace("\n", ",")`. */
  function NewlinesToCommas(s: string): (r: string)
    ensures |r| == |s| && '\n' !in r
  {
    seq(|s|, k requires 0 <= k < |s| => if s[k] == '\n' then ',' else s[k])
  }

  /** `[p.strip() for p in parts]`. */
  function StripAll(parts: seq<string>): (r: seq<string>)
    ensures |r| == |parts|
  {
    seq(|parts|, k requires 0 <= k < |parts| => Strip(parts[k]))
  }

  /** Every piece comes out with no whitespace at either end, and comes out
      empty exactly when it was whitespace only. */
  lemma StripAllSpec(parts: seq<string>)
    ensures forall k | 0 <= k < |parts| :: Stripped(StripAll(parts)[k])
    ensures forall k | 0 <= k < |parts| :: StripAll(parts)[k] == [] <==> AllSpace(parts[k])
  {
    forall k | 0 <= k < |parts|
      ensures Stripped(StripAll(parts)[k])
      ensures StripAll(parts)[k] == [] <==> AllSpace(parts[k])
    {
      StripSpec(parts[k]);
      StripEmpty(parts[k]);
    }
  }

  /** `[p for p in parts if p]`. */
  function DropEmpty(parts: seq<string>): (r: seq<string>)
    ensures forall p | p in r :: p != [] && p in parts
    ensures forall p | p in parts && p != [] :: p in r
  {
    if parts == [] then []
    else (if parts[0] == [] then [] else [parts[0]]) + DropEmpty(parts[1..])
  }

  /** What every parsed domain looks like. */
  predicate IsDomain(d: string) {
    d != [] && Stripped(d) && ',' !in d && '\n' !in d
  }

  /** `load_domains`: an empty configuration gives no domains; otherwise
      newlines become commas, the string is split at commas, each piece is
      stripped and the empty pieces are dropped. */
  function LoadDomains(raw: string): (domains: seq<string>)
    ensures raw == [] ==> domains == []
  {
    if raw == [] then []
    else DropEmpty(StripAll(Split(NewlinesToCommas(raw), ',')))
  }

  /** Splitting keeps out every character the input lacks. */
  lemma {:induction false} SplitKeepsOut(s: string, sep: char, c: char)
    requires c !in s
    ensures forall p | p in Split(s, sep) :: c !in p
    decreases |s|
  {
    if s != [] {
      SplitKeepsOut(s[1..], sep, c);
    }
  }

  /** Every parsed domain is non-empty, has no whitespace at either end
      and contains neither a comma nor a newline. */
  lemma DomainsWellFormed(raw: string)
    ensures forall d | d in LoadDomains(raw) :: IsDomain(d)
  {
    if raw != [] {
      var parts := Split(NewlinesToCommas(raw), ',');
      SplitKeepsOut(NewlinesToCommas(raw), ',', '\n');
      forall d | d in LoadDomains(raw) ensures IsDomain(d) {
        var k :| 0 <= k < |parts| && StripAll(parts)[k] == d;
        StripSpec(parts[k]);
        StripKeepsOut(parts[k], ',');
        StripKeepsOut(parts[k], '\n');
      }
    }
  }

  /** The emptiness test at the head of `load_domains` only short-cuts:
      the pipeline alone also turns the empty string into no domains. */
  lemma LoadDomainsPipeline(raw: string)
    ensures LoadDomains(raw) == DropEmpty(StripAll(Split(NewlinesToCommas(raw), ',')))
  {
    if raw == [] {
      assert Split(NewlinesToCommas(raw), ',') == [[]];
      assert StripAll([[]]) == [[]];
    }
  }

  /** Filtering a concatenation filters each part in turn. */
  lemma {:induction false} DropEmptyConcat(a: seq<string>, b: seq<string>)
    ensures DropEmpty(a + b) == DropEmpty(a) + DropEmpty(b)
    decreases |a|
  {
    if a == [] {
      assert a + b == b;
    } else {
      assert (a + b)[0] == a[0];
      assert (a + b)[1..] == a[1..] + b;
      DropEmptyConcat(a[1..], b);
    }
  }

  /** Either separator becomes a comma, and each side is rewritten alone. */
  lemma NewlinesToCommasConcat(a: string, b: string, sep: char)
    requires sep == ',' || sep == '\n'
    ensures NewlinesToCommas(a + [sep] + b) == NewlinesToCommas(a) + [','] + NewlinesToCommas(b)
  {
  }

  /** Stripping a concatenation of pieces strips each part in turn. */
  lemma StripAllConcat(a: seq<string>, b: seq<string>)
    ensures StripAll(a + b) == StripAll(a) + StripAll(b)
  {
  }

  /** A separator splits the configuration into two independent halves:
      the domains on its left come first, in order, then those on its
      right. */
  lemma LoadDomainsConcat(a: string, b: string, sep: char)
    requires sep == ',' || sep == '\n'
    ensures LoadDomains(a + [sep] + b) == LoadDomains(a) + LoadDomains(b)
  {
    var s := a + [sep] + b;
    LoadDomainsPipeline(s);
    LoadDomainsPipeline(a);
    LoadDomainsPipeline(b);
    var na, nb := NewlinesToCommas(a), NewlinesToCommas(b);
    NewlinesToCommasConcat(a, b, sep);
    SplitAt(na, nb, ',');
    var pa, pb := Split(na, ','), Split(nb, ',');
    StripAllConcat(pa, pb);
    DropEmptyConcat(StripAll(pa), StripAll(pb));
  }

  /** A fragment with no separator in it gives its stripped text as the
      one domain, or nothing when it is only whitespace. With
      LoadDomainsConcat this determines the parse of every input. */
  lemma LoadFragment(s: string)
    requires ',' !in s && '\n' !in s
    ensures LoadDomains(s) == if AllSpace(s) then [] else [Strip(s)]
  {
    LoadDomainsPipeline(s);
    assert forall k | 0 <= k < |s| :: s[k] != '\n';
    assert NewlinesToCommas(s) == s;
    SplitNoSep(s, ',');
    assert StripAll([s]) == [Strip(s)];
    StripEmpty(s);
    assert DropEmpty([Strip(s)]) == (if Strip(s) == [] then [] else [Strip(s)]) + DropEmpty([]);
  }

  /** A well-formed domain on its own parses to itself. */
  lemma LoadOne(d: string)
    requires IsDomain(d)
    ensures LoadDomains(d) == [d]
  {
    LoadFragment(d);
    StripStripped(d);
    StripEmpty(d);
  }

  /** Joining well-formed domains with commas, or with newlines, and
      parsing the result gives back the same domains in the same order. */
  lemma {:induction false} LoadJoin(ds: seq<string>, sep: char)
    requires sep == ',' || sep == '\n'
    requires forall d | d in ds :: IsDomain(d)
    ensures LoadDomains(Join(ds, sep)) == ds
    decreases |ds|
  {
    if |ds| == 1 {
      LoadOne(ds[0]);
    } else if |ds| > 1 {
      LoadJoin(ds[1..], sep);
      LoadOne(ds[0]);
      LoadDomainsConcat(ds[0], Join(ds[1..], sep), sep);
      assert [ds[0]] + ds[1..] == ds;
    }
  }

  /** Parsing is idempotent: writing the parsed list back as a
      comma-separated configuration and parsing again changes nothing. */
  lemma LoadDomainsIdempotent(raw: string)
    ensures LoadDomains(Join(LoadDomains(raw), ',')) == LoadDomains(raw)
  {
    DomainsWellFormed(raw);
    LoadJoin(LoadDomains(raw), ',');
  }
}
