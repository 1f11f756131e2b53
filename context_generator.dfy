/** The feature extractor: turns an email address into the ordered list of feature
    tokens ("context") that the maximum-entropy trainer and model consume. */
module ContextGenerator {
  import opened Strings

  // ---------------------------------------------------------------------------
  // Data model

  /** Why a context could not be computed. The extractor fails only with `DivideByZero`:
      the percentage divides by five times the length of the local part, which is zero
      for an empty local part. `GeneratorFailure` is the failure of any other generator
      a reader may be given. */
  datatype Error = DivideByZero | GeneratorFailure

  datatype Result<T> = Ok(value: T) | Err(error: Error)

  /** Which of the two fixed lists the top-level label belongs to. */
  datatype TldClass = OTld | CTld | UTld

  /** One feature of a context; `Render` gives its token text. */
  datatype Feature =
    | Nb(value: nat)
    | NbDiff(value: nat)
    | PerDistChar(value: nat)
    | HVow(flag: bool)
    | HDig(flag: bool)
    | HDot(flag: bool)
    | HUnders(flag: bool)
    | HDash(flag: bool)
    | NGram(size: nat, value: nat)
    | HnHVow(flag: bool)
    | Tld(kind: TldClass)

  /** Generic top-level domains. */
  const OriginalTlds: seq<string> := ["com", "org", "net", "int", "edu", "gov", "mil"]

  /** Country-code top-level domains, duplicates included, in rows of nineteen. */
  const CountryRow01: seq<string> := ["ac", "uk", "ad", "ae", "af", "ag", "ai", "al", "am", "an", "ao", "aq", "ar", "as", "at", "au", "aw", "ax", "az"]
  const CountryRow02: seq<string> := ["ba", "bb", "bd", "be", "bf", "bg", "bh", "bi", "bj", "bm", "bn", "bo", "bq", "br", "bs", "bt", "bv", "no", "bw"]
  const CountryRow03: seq<string> := ["by", "bz", "ca", "cc", "cd", "cf", "cg", "ch", "ci", "ck", "cl", "cm", "cn", "co", "cr", "cs", "cu", "cv", "cw"]
  const CountryRow04: seq<string> := ["cx", "cy", "cz", "dd", "de", "dj", "dk", "dm", "do", "dz", "ec", "ee", "eg", "eh", "er", "es", "et", "eu", "fi"]
  const CountryRow05: seq<string> := ["fj", "fk", "fm", "fo", "fr", "ga", "gb", "uk", "gd", "ge", "gf", "gg", "gh", "gi", "gl", "gm", "gn", "gp", "gq"]
  const CountryRow06: seq<string> := ["gr", "gs", "gt", "gu", "gw", "gy", "hk", "hm", "hn", "hr", "ht", "hu", "id", "ie", "il", "im", "in", "io", "iq"]
  const CountryRow07: seq<string> := ["ir", "is", "it", "je", "jm", "jo", "jp", "ke", "kg", "kh", "ki", "km", "kn", "kp", "kr", "kw", "ky", "kz", "la"]
  const CountryRow08: seq<string> := ["lb", "lc", "li", "lk", "lr", "ls", "lt", "lu", "lv", "ly", "ma", "mc", "md", "me", "mg", "mh", "mk", "ml", "mm"]
  const CountryRow09: seq<string> := ["mn", "mn", "mo", "mp", "mq", "mr", "ms", "mt", "mu", "mv", "mw", "mx", "my", "mz", "na", "nc", "ne", "nf", "ng"]
  const CountryRow10: seq<string> := ["ni", "nl", "no", "np", "nr", "nu", "nz", "om", "pa", "pe", "pf", "pg", "ph", "pk", "pl", "pm", "pn", "pr", "ps"]
  const CountryRow11: seq<string> := ["pt", "pw", "py", "qa", "re", "ro", "rs", "ru", "su", "rw", "sa", "sb", "sc", "sd", "se", "sg", "sh", "si", "sj"]
  const CountryRow12: seq<string> := ["no", "sk", "sl", "sm", "sn", "so", "sr", "ss", "st", "su", "sv", "sx", "sy", "sz", "tc", "td", "tf", "tg", "th"]
  const CountryRow13: seq<string> := ["tj", "tk", "tl", "tp", "tm", "tn", "to", "tp", "tl", "tr", "tt", "tv", "tw", "tz", "ua", "ug", "uk", "us", "uy"]
  const CountryRow14: seq<string> := ["uz", "va", "vc", "ve", "vg", "vi", "vn", "vu", "wf", "ws", "ye", "yt", "yu", "za", "zm", "zr", "zw"]

  const CountryTlds: seq<string> :=
    CountryRow01 + CountryRow02 + CountryRow03 + CountryRow04 + CountryRow05
    + CountryRow06 + CountryRow07 + CountryRow08 + CountryRow09 + CountryRow10
    + CountryRow11 + CountryRow12 + CountryRow13 + CountryRow14

  const Vowels: string := "aeiouy"

  // ---------------------------------------------------------------------------
  // Rendering of tokens

  /** Boolean.ToString(). */
  function BoolText(b: bool): string
  {
    if b then "True" else "False"
  }

  /** The token text of a feature: `name=value`, or just the name for the TLD class. */
  function Render(f: Feature): string
  {
    match f
    case Nb(v) => "nb=" + Decimal(v)
    case NbDiff(v) => "nbdiff=" + Decimal(v)
    case PerDistChar(v) => "perDistChar=" + Decimal(v)
    case HVow(b) => "hVow=" + BoolText(b)
    case HDig(b) => "hDig=" + BoolText(b)
    case HDot(b) => "hDot=" + BoolText(b)
    case HUnders(b) => "hUnders=" + BoolText(b)
    case HDash(b) => "hDash=" + BoolText(b)
    case NGram(n, v) => "ngram" + Decimal(n) + "=" + Decimal(v)
    case HnHVow(b) => "hnHVow=" + BoolText(b)
    case Tld(OTld) => "oTld"
    case Tld(CTld) => "cTld"
    case Tld(UTld) => "uTld"
  }

  /** The tokens of the features, in order. */
  function RenderAll(fs: seq<Feature>): seq<string>
  {
    if fs == [] then [] else RenderAll(fs[..|fs| - 1]) + [Render(Last(fs))]
  }

  function Rendered(r: Result<seq<Feature>>): Result<seq<string>>
  {
    match r
    case Ok(fs) => Ok(RenderAll(fs))
    case Err(e) => Err(e)
  }

  /** Position of a feature's kind in the fixed order of a context. */
  function Rank(f: Feature): nat
  {
    match f
    case Nb(_) => 0
    case NbDiff(_) => 1
    case PerDistChar(_) => 2
    case HVow(_) => 3
    case HDig(_) => 4
    case HDot(_) => 5
    case HUnders(_) => 6
    case HDash(_) => 7
    case NGram(n, _) => 6 + n
    case HnHVow(_) => 10
    case Tld(_) => 11
  }

  // ---------------------------------------------------------------------------
  // The quantities a context is made of

  /** The text before the first '@' (all of the input when there is none). */
  function LocalPart(input: string): string
  {
    Split(input, '@')[0]
  }

  /** The text after the last '@' (all of the input when there is none). */
  function Domain(input: string): string
  {
    Last(Split(input, '@'))
  }

  /** The domain's dot-separated labels but the last, joined again with '.'. */
  function HostName(domain: string): string
  {
    var labels := Split(domain, '.');
    Join(".", labels[..|labels| - 1])
  }

  /** The domain's last dot-separated label. */
  function TopLabel(domain: string): string
  {
    Last(Split(domain, '.'))
  }

  /** The regular expression [aeiouy]+ matches somewhere in `s`. */
  predicate HasVowel(s: string)
  {
    exists k | 0 <= k < |s| :: s[k] in Vowels
  }

  predicate IsDigit(c: char)
  {
    '0' <= c <= '9'
  }

  /** The regular expression \d+ matches somewhere in `s` (ASCII digits). */
  predicate HasDigit(s: string)
  {
    exists k | 0 <= k < |s| :: IsDigit(s[k])
  }

  /** The share of distinct characters in percent, rounded down to a multiple of five. */
  function PercentBucket(distinct: nat, count: nat): nat
    requires count > 0
  {
    var quotient: nat := (distinct * 100) / (5 * count);
    quotient * 5
  }

  /** Lookup in the generic list first, then in the country list. */
  function ClassifyTld(tld: string): TldClass
  {
    if tld in OriginalTlds then OTld
    else if tld in CountryTlds then CTld
    else UTld
  }

  /** How often `g` occurs in `s`, counted as the number of pieces that splitting `s`
      on `g` gives, minus one. */
  function SplitCount(s: string, g: string): int
    requires |g| > 0
  {
    |SplitOn(s, g)| - 1
  }

  /** The distinct n-grams starting at the first `j` positions of `s` whose split count
      exceeds one, in order of first appearance. */
  function RepeatedNgramsUpTo(s: string, n: nat, j: nat): seq<string>
    requires n > 0 && (j == 0 || j + n <= |s| + 1)
  {
    if j == 0 then []
    else
      var prev := RepeatedNgramsUpTo(s, n, j - 1);
      var g := Substring(s, j - 1, n);
      if g !in prev && SplitCount(s, g) > 1 then prev + [g] else prev
  }

  /** The distinct n-grams of `s` whose split count exceeds one. */
  function RepeatedNgrams(s: string, n: nat): seq<string>
    requires n > 0
  {
    if |s| + 1 <= n then [] else RepeatedNgramsUpTo(s, n, |s| - n + 1)
  }

  /** The sum of the split counts of the strings `gs`. */
  function SumSplitCounts(s: string, gs: seq<string>): int
    requires forall g :: g in gs ==> |g| > 0
  {
    if gs == [] then 0 else SumSplitCounts(s, gs[..|gs| - 1]) + SplitCount(s, Last(gs))
  }

  /** The sum of the values stored under `keys` in `counts`. */
  function SumValues(keys: seq<string>, counts: map<string, int>): int
    requires forall g :: g in keys ==> g in counts
  {
    if keys == [] then 0 else SumValues(keys[..|keys| - 1], counts) + counts[Last(keys)]
  }

  /** The sum of the split counts of the repeated n-grams of `s`. */
  function NgramRepetitions(s: string, n: nat): int
    requires n > 0
  {
    var gs := RepeatedNgrams(s, n);
    assert forall g :: g in gs ==> |g| > 0 by { RepeatedNgramsSound(s, n); }
    SumSplitCounts(s, gs)
  }

  /** The `ngram<n>` feature: present only when some n-gram is repeated. */
  function NgramFeatures(s: string, n: nat): seq<Feature>
    requires n > 0
  {
    var total := NgramRepetitions(s, n);
    if total > 0 then [NGram(n, total)] else []
  }

  /** The local-part features followed by the n-gram features for the sizes from 2 up
      to, not including, `limit`. */
  function LocalPartContextBelow(localPart: string, limit: nat): seq<Feature>
    requires |localPart| > 0 && 2 <= limit
  {
    if limit == 2 then LocalPartFeatures(localPart)
    else LocalPartContextBelow(localPart, limit - 1) + NgramFeatures(localPart, limit - 1)
  }

  /** The eight features computed from the local part alone. */
  function LocalPartFeatures(localPart: string): seq<Feature>
    requires |localPart| > 0
  {
    var nb := |localPart|;
    var nbdiff := |CharSet(localPart)|;
    [Nb(nb), NbDiff(nbdiff), PerDistChar(PercentBucket(nbdiff, nb)),
     HVow(HasVowel(localPart)), HDig(HasDigit(localPart)), HDot('.' in localPart),
     HUnders('_' in localPart), HDash('-' in localPart)]
  }

  /** The two features computed from the domain. */
  function DomainFeatures(domain: string): seq<Feature>
  {
    [HnHVow(HasVowel(HostName(domain))), Tld(ClassifyTld(TopLabel(domain)))]
  }

  /** The context of an email address, as features. */
  function Features(input: string): Result<seq<Feature>>
  {
    var localPart := LocalPart(input);
    if |localPart| == 0 then Err(DivideByZero)
    else Ok(LocalPartContextBelow(localPart, 4) + DomainFeatures(Domain(input)))
  }

  // ---------------------------------------------------------------------------
  // The extractor

  /** Builds the context token by token; the list built so far is lost when the
      percentage divides by zero. */
  method GetContext(input: string) returns (context: Result<seq<string>>)
    ensures context == Rendered(Features(input))
  {
    var parts := Split(input, '@');
    var localPart := parts[0];
    var domain := Last(parts);
    if 5 * |localPart| == 0 {
      return Err(DivideByZero);
    }
    var results := LocalPartContext(localPart);
    ghost var body := LocalPartContextBelow(localPart, 4);
    var domainTokens := DomainContext(domain);
    RenderAllAppend(body, DomainFeatures(domain));
    results := results + domainTokens;
    assert Features(input) == Ok(body + DomainFeatures(domain));
    return Ok(results);
  }

  /** Eight features appended one by one to the empty list form the list of the eight. */
  lemma SnocEight(a: Feature, b: Feature, c: Feature, d: Feature, e: Feature, f: Feature, g: Feature, h: Feature)
    ensures [] + [a] + [b] + [c] + [d] + [e] + [f] + [g] + [h] == [a, b, c, d, e, f, g, h]
  {
  }

  /** Rendering a list with one more feature at its end adds that feature's token. */
  lemma RenderAllSnoc(fs: seq<Feature>, f: Feature)
    ensures RenderAll(fs + [f]) == RenderAll(fs) + [Render(f)]
  {
    assert (fs + [f])[..|fs|] == fs;
  }

  /** One more n-gram size adds the `ngram` feature exactly when its total is positive. */
  lemma NgramStep(localPart: string, n: nat, total: int)
    requires |localPart| > 0 && 2 <= n && total == NgramRepetitions(localPart, n)
    ensures total > 0 ==> LocalPartContextBelow(localPart, n + 1) == LocalPartContextBelow(localPart, n) + [NGram(n, total)]
    ensures total <= 0 ==> LocalPartContextBelow(localPart, n + 1) == LocalPartContextBelow(localPart, n)
  {
    if total <= 0 {
      assert LocalPartContextBelow(localPart, n) + [] == LocalPartContextBelow(localPart, n);
    }
  }

  /** The last two tokens, computed from the domain. */
  method DomainContext(domain: string) returns (results: seq<string>)
    ensures results == RenderAll(DomainFeatures(domain))
  {
    var domainParts := Split(domain, '.');
    var hostName := Join(".", domainParts[..|domainParts| - 1]);
    var hostToken := "hnHVow=" + BoolText(HasVowel(hostName));
    var tld := Last(domainParts);
    var tldToken;
    if tld in OriginalTlds {
      tldToken := "oTld";
    } else if tld in CountryTlds {
      tldToken := "cTld";
    } else {
      tldToken := "uTld";
    }
    assert tldToken == Render(Tld(ClassifyTld(tld)));
    RenderAllPair(HnHVow(HasVowel(hostName)), Tld(ClassifyTld(tld)));
    results := [hostToken, tldToken];
  }

  /** Two features render as their two tokens. */
  lemma RenderAllPair(a: Feature, b: Feature)
    ensures RenderAll([a, b]) == [Render(a), Render(b)]
  {
    RenderAllSnoc([], a);
    RenderAllSnoc([a], b);
    assert [] + [a] == [a];
    assert [a] + [b] == [a, b];
  }

  /** The tokens computed from the local part: the eight summary tokens, then the
      `ngram2` and `ngram3` tokens when those n-grams repeat. */
  method LocalPartContext(localPart: string) returns (results: seq<string>)
    requires |localPart| > 0
    ensures results == RenderAll(LocalPartContextBelow(localPart, 4))
  {
    results := LocalPartSummary(localPart);
    ghost var features := LocalPartContextBelow(localPart, 2);
    var i := 2;
    while i <= 3
      invariant 2 <= i <= 4
      invariant features == LocalPartContextBelow(localPart, i)
      invariant results == RenderAll(features)
    {
      var nbOfRepetitionOfRepeatedNgrams := RepetitionsOfRepeatedNgrams(localPart, i);
      NgramStep(localPart, i, nbOfRepetitionOfRepeatedNgrams);
      if nbOfRepetitionOfRepeatedNgrams > 0 {
        var token := "ngram" + Decimal(i) + "=" + Decimal(nbOfRepetitionOfRepeatedNgrams);
        assert token == Render(NGram(i, nbOfRepetitionOfRepeatedNgrams));
        RenderAllSnoc(features, NGram(i, nbOfRepetitionOfRepeatedNgrams));
        results := results + [token];
        features := features + [NGram(i, nbOfRepetitionOfRepeatedNgrams)];
      }
      i := i + 1;
    }
    assert i == 4;
  }

  /** The first eight tokens, all computed from the local part. */
  method LocalPartSummary(localPart: string) returns (results: seq<string>)
    requires |localPart| > 0
    ensures results == RenderAll(LocalPartFeatures(localPart))
  {
    ghost var fs: seq<Feature> := [];
    results := [];
    var nbOfCharacters := |localPart|;
    results := results + ["nb=" + Decimal(nbOfCharacters)];
    RenderAllSnoc(fs, Nb(nbOfCharacters));
    fs := fs + [Nb(nbOfCharacters)];
    var nbOfDifferentCharacters := |CharSet(localPart)|;
    results := results + ["nbdiff=" + Decimal(nbOfDifferentCharacters)];
    RenderAllSnoc(fs, NbDiff(nbOfDifferentCharacters));
    fs := fs + [NbDiff(nbOfDifferentCharacters)];
    var percentOfDistinctCharacters := PercentBucket(nbOfDifferentCharacters, nbOfCharacters);
    results := results + ["perDistChar=" + Decimal(percentOfDistinctCharacters)];
    RenderAllSnoc(fs, PerDistChar(percentOfDistinctCharacters));
    fs := fs + [PerDistChar(percentOfDistinctCharacters)];
    results := results + ["hVow=" + BoolText(HasVowel(localPart))];
    RenderAllSnoc(fs, HVow(HasVowel(localPart)));
    fs := fs + [HVow(HasVowel(localPart))];
    results := results + ["hDig=" + BoolText(HasDigit(localPart))];
    RenderAllSnoc(fs, HDig(HasDigit(localPart)));
    fs := fs + [HDig(HasDigit(localPart))];
    results := results + ["hDot=" + BoolText('.' in localPart)];
    RenderAllSnoc(fs, HDot('.' in localPart));
    fs := fs + [HDot('.' in localPart)];
    results := results + ["hUnders=" + BoolText('_' in localPart)];
    RenderAllSnoc(fs, HUnders('_' in localPart));
    fs := fs + [HUnders('_' in localPart)];
    results := results + ["hDash=" + BoolText('-' in localPart)];
    RenderAllSnoc(fs, HDash('-' in localPart));
    fs := fs + [HDash('-' in localPart)];
    SnocEight(Nb(nbOfCharacters), NbDiff(nbOfDifferentCharacters), PerDistChar(percentOfDistinctCharacters),
      HVow(HasVowel(localPart)), HDig(HasDigit(localPart)), HDot('.' in localPart),
      HUnders('_' in localPart), HDash('-' in localPart));
  }

  /** Rendering maps each feature to its token, position by position. */
  lemma {:induction false} RenderAllSpec(fs: seq<Feature>)
    ensures |RenderAll(fs)| == |fs|
    ensures forall k :: 0 <= k < |fs| ==> RenderAll(fs)[k] == Render(fs[k])
  {
    if fs != [] {
      var init := fs[..|fs| - 1];
      RenderAllSpec(init);
      assert RenderAll(fs) == RenderAll(init) + [Render(Last(fs))];
      forall k | 0 <= k < |fs| ensures RenderAll(fs)[k] == Render(fs[k]) {
        if k < |init| {
          assert fs[k] == init[k];
        } else {
          assert fs[k] == Last(fs);
        }
      }
    }
  }

  /** The inner loop of the extractor: collects the n-grams whose split count exceeds
      one in a dictionary, then sums its values. */
  method RepetitionsOfRepeatedNgrams(localPart: string, n: nat) returns (total: int)
    requires n > 0
    ensures total == NgramRepetitions(localPart, n)
  {
    var nGramsToOccurrences: map<string, int> := map[];
    var keysInOrder: seq<string> := [];
    var j := 0;
    while j < |localPart| - n + 1
      invariant 0 <= j && (j == 0 || j + n <= |localPart| + 1)
      invariant keysInOrder == RepeatedNgramsUpTo(localPart, n, j)
      invariant forall g :: g in nGramsToOccurrences <==> g in keysInOrder
      invariant forall g :: g in nGramsToOccurrences ==> |g| > 0 && nGramsToOccurrences[g] == SplitCount(localPart, g)
    {
      var ngram := Substring(localPart, j, n);
      assert RepeatedNgramsUpTo(localPart, n, j + 1)
          == if ngram !in keysInOrder && SplitCount(localPart, ngram) > 1 then keysInOrder + [ngram] else keysInOrder;
      if ngram !in nGramsToOccurrences {
        var nbOfOccurrences := SplitCount(localPart, ngram);
        if nbOfOccurrences > 1 {
          nGramsToOccurrences := nGramsToOccurrences[ngram := nbOfOccurrences];
          keysInOrder := keysInOrder + [ngram];
        }
      }
      j := j + 1;
    }
    SumValuesAgree(localPart, keysInOrder, nGramsToOccurrences);
    total := SumValues(keysInOrder, nGramsToOccurrences);
  }

  lemma {:induction false} RenderAllAppend(a: seq<Feature>, b: seq<Feature>)
    ensures RenderAll(a + b) == RenderAll(a) + RenderAll(b)
  {
    if b == [] {
      assert a + b == a;
    } else {
      var init := b[..|b| - 1];
      RenderAllAppend(a, init);
      assert (a + b)[..|a + b| - 1] == a + init;
      assert Last(a + b) == Last(b);
      assert RenderAll(a + b) == RenderAll(a + init) + [Render(Last(b))];
    }
  }

  /** The dictionary holds the split count of every key, so summing its values sums
      those counts. */
  lemma {:induction false} SumValuesAgree(s: string, keys: seq<string>, counts: map<string, int>)
    requires forall g :: g in keys ==> g in counts && |g| > 0
    requires forall g :: g in counts ==> |g| > 0 && counts[g] == SplitCount(s, g)
    ensures SumValues(keys, counts) == SumSplitCounts(s, keys)
  {
    if keys != [] {
      SumValuesAgree(s, keys[..|keys| - 1], counts);
    }
  }

  // ---------------------------------------------------------------------------
  // Properties of the n-gram features

  /** Every n-gram collected so far is an n-gram of `s` that the scan finds more than
      once. */
  lemma {:induction false} RepeatedNgramsUpToSound(s: string, n: nat, j: nat)
    requires n > 0 && (j == 0 || j + n <= |s| + 1)
    ensures forall g :: g in RepeatedNgramsUpTo(s, n, j) ==> |g| == n && Occurrences(s, g) > 1
  {
    if j > 0 {
      RepeatedNgramsUpToSound(s, n, j - 1);
      var g := Substring(s, j - 1, n);
      SplitOnCount(s, g);
    }
  }

  /** Every n-gram at a position already passed that the scan finds more than once is
      collected. */
  lemma {:induction false} RepeatedNgramsUpToComplete(s: string, n: nat, j: nat)
    requires n > 0 && (j == 0 || j + n <= |s| + 1)
    ensures forall k :: 0 <= k < j && Occurrences(s, Substring(s, k, n)) > 1 ==>
      Substring(s, k, n) in RepeatedNgramsUpTo(s, n, j)
  {
    if j > 0 {
      RepeatedNgramsUpToComplete(s, n, j - 1);
      var g := Substring(s, j - 1, n);
      SplitOnCount(s, g);
    }
  }

  /** No n-gram is collected twice. */
  lemma {:induction false} RepeatedNgramsUpToDistinct(s: string, n: nat, j: nat)
    requires n > 0 && (j == 0 || j + n <= |s| + 1)
    ensures AllDistinct(RepeatedNgramsUpTo(s, n, j))
  {
    if j > 0 {
      RepeatedNgramsUpToDistinct(s, n, j - 1);
      var prev := RepeatedNgramsUpTo(s, n, j - 1);
      var g := Substring(s, j - 1, n);
      if g !in prev && SplitCount(s, g) > 1 {
        var gs := prev + [g];
        forall a, b | 0 <= a < b < |gs| ensures gs[a] != gs[b] {
          if b == |prev| {
            assert prev[a] in prev;
          } else {
            assert gs[b] == prev[b];
          }
        }
      }
    }
  }

  /** Every repeated n-gram is an n-gram of `s` that the scan finds more than once. */
  lemma RepeatedNgramsSound(s: string, n: nat)
    requires n > 0
    ensures forall g :: g in RepeatedNgrams(s, n) ==> |g| == n && Occurrences(s, g) > 1
  {
    if |s| + 1 > n {
      RepeatedNgramsUpToSound(s, n, |s| - n + 1);
    }
  }

  /** Every n-gram of `s` that the scan finds more than once is a repeated n-gram. */
  lemma RepeatedNgramsComplete(s: string, n: nat)
    requires n > 0
    ensures forall k :: 0 <= k <= |s| - n && Occurrences(s, Substring(s, k, n)) > 1 ==>
      Substring(s, k, n) in RepeatedNgrams(s, n)
  {
    if |s| + 1 > n {
      RepeatedNgramsUpToComplete(s, n, |s| - n + 1);
    }
  }

  /** Each repeated n-gram is listed once. */
  lemma RepeatedNgramsDistinct(s: string, n: nat)
    requires n > 0
    ensures AllDistinct(RepeatedNgrams(s, n))
  {
    if |s| + 1 > n {
      RepeatedNgramsUpToDistinct(s, n, |s| - n + 1);
    }
  }

  /** Each counted n-gram contributes at least two. */
  lemma {:induction false} SumSplitCountsLower(s: string, gs: seq<string>)
    requires forall g :: g in gs ==> |g| > 0 && SplitCount(s, g) > 1
    ensures SumSplitCounts(s, gs) >= 2 * |gs|
  {
    if gs != [] {
      SumSplitCountsLower(s, gs[..|gs| - 1]);
    }
  }

  /** The total is at least two per repeated n-gram, and zero when there is none. */
  lemma NgramRepetitionsBounds(s: string, n: nat)
    requires n > 0
    ensures NgramRepetitions(s, n) >= 2 * |RepeatedNgrams(s, n)|
    ensures RepeatedNgrams(s, n) == [] ==> NgramRepetitions(s, n) == 0
  {
    var gs := RepeatedNgrams(s, n);
    RepeatedNgramsSound(s, n);
    forall g | g in gs ensures |g| > 0 && SplitCount(s, g) > 1 {
      SplitOnCount(s, g);
    }
    SumSplitCountsLower(s, gs);
  }

  /** Some n-gram is repeated exactly when the scan finds an n-gram of `s` twice. */
  lemma RepeatedNgramsNonEmpty(s: string, n: nat)
    requires n > 0
    ensures RepeatedNgrams(s, n) != []
        <==> exists k :: 0 <= k <= |s| - n && Occurrences(s, Substring(s, k, n)) > 1
  {
    var gs := RepeatedNgrams(s, n);
    RepeatedNgramsSound(s, n);
    RepeatedNgramsComplete(s, n);
    if gs != [] {
      assert gs[0] in gs;
      var g := gs[0];
      assert |g| == n && Occurrences(s, g) > 1;
      var k := OccurrenceIndex(s, g);
      assert Substring(s, k, n) == g;
    }
  }

  /** `ngram<n>` appears at most once, exactly when the scan finds some n-gram of `s`
      at least twice, and then with a value of at least two per repeated n-gram; a
      string shorter than `n` has none. */
  lemma NgramFeatureSpec(s: string, n: nat)
    requires n > 0
    ensures |NgramFeatures(s, n)| <= 1
    ensures |NgramFeatures(s, n)| == 1
        <==> exists k :: 0 <= k <= |s| - n && Occurrences(s, Substring(s, k, n)) > 1
    ensures forall f :: f in NgramFeatures(s, n) ==>
        f == NGram(n, NgramRepetitions(s, n)) && f.value >= 2 * |RepeatedNgrams(s, n)| >= 2
    ensures |s| < n ==> NgramFeatures(s, n) == []
  {
    NgramRepetitionsBounds(s, n);
    RepeatedNgramsNonEmpty(s, n);
  }

  // ---------------------------------------------------------------------------
  // Properties of the top-level-domain lookup

  /** Every entry of `tlds` has length `n`. */
  predicate AllOfLength(tlds: seq<string>, n: nat)
  {
    forall t :: t in tlds ==> |t| == n
  }

  // One lemma per row keeps each proof obligation small.
  lemma CountryRowLength01()
    ensures forall t :: t in CountryRow01 ==> |t| == 2
  {
  }

  lemma CountryRowLength02()
    ensures forall t :: t in CountryRow02 ==> |t| == 2
  {
  }

  lemma CountryRowLength03()
    ensures forall t :: t in CountryRow03 ==> |t| == 2
  {
  }

  lemma CountryRowLength04()
    ensures forall t :: t in CountryRow04 ==> |t| == 2
  {
  }

  lemma CountryRowLength05()
    ensures forall t :: t in CountryRow05 ==> |t| == 2
  {
  }

  lemma CountryRowLength06()
    ensures forall t :: t in CountryRow06 ==> |t| == 2
  {
  }

  lemma CountryRowLength07()
    ensures forall t :: t in CountryRow07 ==> |t| == 2
  {
  }

  lemma CountryRowLength08()
    ensures forall t :: t in CountryRow08 ==> |t| == 2
  {
  }

  lemma CountryRowLength09()
    ensures forall t :: t in CountryRow09 ==> |t| == 2
  {
  }

  lemma CountryRowLength10()
    ensures forall t :: t in CountryRow10 ==> |t| == 2
  {
  }

  lemma CountryRowLength11()
    ensures forall t :: t in CountryRow11 ==> |t| == 2
  {
  }

  lemma CountryRowLength12()
    ensures forall t :: t in CountryRow12 ==> |t| == 2
  {
  }

  lemma CountryRowLength13()
    ensures forall t :: t in CountryRow13 ==> |t| == 2
  {
  }

  lemma CountryRowLength14()
    ensures forall t :: t in CountryRow14 ==> |t| == 2
  {
  }

  /** The generic entries have three letters. */
  lemma OriginalTldLengths()
    ensures AllOfLength(OriginalTlds, 3)
  {
  }

  /** The country entries have two letters. */
  lemma CountryTldLengths()
    ensures AllOfLength(CountryTlds, 2)
  {
    CountryRowLength01();
    CountryRowLength02();
    CountryRowLength03();
    CountryRowLength04();
    CountryRowLength05();
    CountryRowLength06();
    CountryRowLength07();
    CountryRowLength08();
    CountryRowLength09();
    CountryRowLength10();
    CountryRowLength11();
    CountryRowLength12();
    CountryRowLength13();
    CountryRowLength14();
  }


  /** No entry is in both lists, so the order of the two lookups never matters. */
  lemma TldListsDisjoint()
    ensures forall t :: t in OriginalTlds ==> t !in CountryTlds
  {
    OriginalTldLengths();
    CountryTldLengths();
  }

  /** Each class is exactly membership in its list (or in neither). */
  lemma ClassifyTldSpec(tld: string)
    ensures ClassifyTld(tld) == OTld <==> tld in OriginalTlds
    ensures ClassifyTld(tld) == CTld <==> tld in CountryTlds
    ensures ClassifyTld(tld) == UTld <==> tld !in OriginalTlds && tld !in CountryTlds
  {
    TldListsDisjoint();
  }

  /** "ss" is a country domain, listed once; "uk" is listed three times. */
  lemma CountryTldExamples()
    ensures ClassifyTld("ss") == CTld
    ensures ClassifyTld("uk") == CTld
  {
    assert CountryRow12[7] == "ss";
    assert CountryRow01[1] == "uk";
    OriginalTldLengths();
  }

  /** "com" is a generic domain. */
  lemma GenericTldExample()
    ensures ClassifyTld("com") == OTld
  {
    assert OriginalTlds[0] == "com";
  }

  /** A three-letter label outside the generic list is unreferenced. */
  lemma UnreferencedTldExample()
    ensures ClassifyTld("qsd") == UTld
  {
    assert "qsd" !in OriginalTlds;
    CountryTldLengths();
    assert "qsd" !in CountryTlds;
  }

  /** The lookup is case-sensitive: "COM" is unreferenced. */
  lemma CaseSensitiveTldExample()
    ensures ClassifyTld("COM") == UTld
  {
    assert "COM" !in OriginalTlds;
    CountryTldLengths();
    assert "COM" !in CountryTlds;
  }

  // ---------------------------------------------------------------------------
  // Properties of the address split and of the domain features

  /** The local part is the text before the first '@', and all of the input when there
      is no '@'. */
  lemma LocalPartSpec(input: string)
    ensures LocalPart(input) <= input && '@' !in LocalPart(input)
    ensures |LocalPart(input)| < |input| ==> input[|LocalPart(input)|] == '@'
    ensures '@' !in input ==> LocalPart(input) == input
  {
    SplitFirst(input, '@');
  }

  /** The domain is the text after the last '@', and all of the input when there is
      no '@'. */
  lemma DomainSpec(input: string)
    ensures |Domain(input)| <= |input| && Domain(input) == input[|input| - |Domain(input)|..]
    ensures '@' !in Domain(input)
    ensures |Domain(input)| < |input| ==> input[|input| - |Domain(input)| - 1] == '@'
    ensures '@' !in input ==> Domain(input) == input
  {
    SplitLast(input, '@');
    SplitFirst(input, '@');
  }

  /** Extraction fails exactly when the local part is empty: for the empty input and
      for an input that starts with '@'. */
  lemma FeaturesFailure(input: string)
    ensures Features(input).Err? <==> |input| == 0 || input[0] == '@'
  {
    LocalPartSpec(input);
    if |input| > 0 && input[0] == '@' {
      assert Split(input, '@') == [""] + Split(input[1..], '@');
    }
  }

  /** The host name and the top-level label: with no '.' in the domain the host name is
      empty (so it has no vowel) and the label is the whole domain; otherwise the two,
      joined by '.', give back the domain. */
  lemma HostNameAndTopLabel(domain: string)
    ensures '.' !in TopLabel(domain)
    ensures '.' !in domain ==> HostName(domain) == "" && TopLabel(domain) == domain
    ensures '.' !in domain ==> DomainFeatures(domain)[0] == HnHVow(false)
    ensures '.' in domain ==> HostName(domain) + "." + TopLabel(domain) == domain
  {
    var labels := Split(domain, '.');
    SplitFirst(domain, '.');
    SplitLast(domain, '.');
    if '.' in domain {
      JoinSplit(domain, '.');
      JoinSnoc(".", labels);
    } else {
      assert labels[..0] == [];
    }
  }

  // ---------------------------------------------------------------------------
  // Properties of the local-part features

  /** The bucket is the percentage of distinct characters rounded down to a multiple
      of five: at most 100, and 100 exactly when every character is distinct. */
  lemma PercentBucketRange(distinct: nat, count: nat)
    requires 0 < count && distinct <= count
    ensures PercentBucket(distinct, count) % 5 == 0
    ensures PercentBucket(distinct, count) <= 100
    ensures PercentBucket(distinct, count) * count <= distinct * 100
    ensures distinct * 100 < (PercentBucket(distinct, count) + 5) * count
    ensures PercentBucket(distinct, count) == 100 <==> distinct == count
  {
    var a := distinct * 100;
    var b := 5 * count;
    var q := a / b;
    assert q * b <= a < q * b + b;
    assert PercentBucket(distinct, count) == 5 * q;
    MulAssociates(q, count);
    MulMonotone(20, q, b);
    if distinct == count {
      MulMonotone(19, q, b);
    } else {
      MulMonotone(q, 20, b);
    }
  }

  /** Regrouping the factors of the bucket. */
  lemma MulAssociates(q: int, count: int)
    ensures 5 * q * count == q * (5 * count)
    ensures (5 * q + 5) * count == q * (5 * count) + 5 * count
  {
  }

  /** Multiplying by a positive number keeps the order. */
  lemma MulMonotone(x: int, y: int, b: int)
    requires b > 0
    ensures x < y <==> x * b < y * b
  {
    if x < y {
      assert y * b - x * b == (y - x) * b;
    } else {
      assert x * b - y * b == (x - y) * b;
    }
  }

  /** `nb` is the length of the local part; `nbdiff` lies between one and `nb` and
      equals it exactly when no character repeats; `perDistChar` is a multiple of five
      that reaches 100 exactly then. */
  lemma CountFeatures(localPart: string)
    requires |localPart| > 0
    ensures LocalPartFeatures(localPart)[0] == Nb(|localPart|)
    ensures LocalPartFeatures(localPart)[1].NbDiff?
    ensures 1 <= LocalPartFeatures(localPart)[1].value <= |localPart|
    ensures LocalPartFeatures(localPart)[1].value == |localPart| <==> AllDistinct(localPart)
    ensures LocalPartFeatures(localPart)[2].PerDistChar?
    ensures LocalPartFeatures(localPart)[2].value % 5 == 0 && LocalPartFeatures(localPart)[2].value <= 100
    ensures LocalPartFeatures(localPart)[2].value == 100 <==> AllDistinct(localPart)
  {
    CharSetBounds(localPart);
    CharSetAllDistinct(localPart);
    PercentBucketRange(|CharSet(localPart)|, |localPart|);
  }

  /** A vowel occurs in `s` exactly when its character set holds one. */
  lemma HasVowelByCharSet(s: string)
    ensures HasVowel(s) <==> exists c :: c in CharSet(s) && c in Vowels
  {
    if exists c :: c in CharSet(s) && c in Vowels {
      var c :| c in CharSet(s) && c in Vowels;
      var k :| 0 <= k < |s| && s[k] == c;
    }
  }

  /** A digit occurs in `s` exactly when its character set holds one. */
  lemma HasDigitByCharSet(s: string)
    ensures HasDigit(s) <==> exists c :: c in CharSet(s) && IsDigit(c)
  {
    if exists c :: c in CharSet(s) && IsDigit(c) {
      var c :| c in CharSet(s) && IsDigit(c);
      var k :| 0 <= k < |s| && s[k] == c;
    }
  }

  /** The five flags depend only on which characters occur: two local parts with the
      same character set get the same flags. */
  lemma FlagsDependOnCharacterSet(a: string, b: string)
    requires |a| > 0 && |b| > 0 && CharSet(a) == CharSet(b)
    ensures LocalPartFeatures(a)[3..] == LocalPartFeatures(b)[3..]
  {
    HasVowelByCharSet(a);
    HasVowelByCharSet(b);
    HasDigitByCharSet(a);
    HasDigitByCharSet(b);
    assert HasVowel(a) == HasVowel(b) && HasDigit(a) == HasDigit(b);
    assert ('.' in a) == ('.' in b) && ('_' in a) == ('_' in b) && ('-' in a) == ('-' in b);
  }

  // ---------------------------------------------------------------------------
  // The layout of a context

  /** The features appear in strictly increasing rank, so each kind at most once and
      always in the fixed order. */
  predicate Ranked(fs: seq<Feature>)
  {
    forall i, j :: 0 <= i < j < |fs| ==> Rank(fs[i]) < Rank(fs[j])
  }

  /** Every feature of `fs` has a rank in [lo, hi). */
  predicate RanksWithin(fs: seq<Feature>, lo: nat, hi: nat)
  {
    forall f :: f in fs ==> lo <= Rank(f) < hi
  }

  lemma RankedAppend(a: seq<Feature>, b: seq<Feature>, lo: nat, mid: nat, hi: nat)
    requires lo <= mid <= hi
    requires Ranked(a) && RanksWithin(a, lo, mid)
    requires Ranked(b) && RanksWithin(b, mid, hi)
    ensures Ranked(a + b) && RanksWithin(a + b, lo, hi)
  {
    forall i, j | 0 <= i < j < |a + b| ensures Rank((a + b)[i]) < Rank((a + b)[j]) {
      if j < |a| {
      } else if i < |a| {
        assert (a + b)[i] in a && (a + b)[j] in b;
      } else {
        assert (a + b)[i] == b[i - |a|] && (a + b)[j] == b[j - |a|];
      }
    }
  }

  /** The eight summary features have the ranks 0 to 7, in order. */
  lemma SummaryRanked(localPart: string)
    requires |localPart| > 0
    ensures Ranked(LocalPartFeatures(localPart)) && RanksWithin(LocalPartFeatures(localPart), 0, 8)
  {
    var fs := LocalPartFeatures(localPart);
    assert forall k :: 0 <= k < 8 ==> Rank(fs[k]) == k;
  }

  /** The `ngram<n>` list has at most one feature, of rank 6 + n. */
  lemma NgramRanked(localPart: string, n: nat)
    requires n > 0
    ensures Ranked(NgramFeatures(localPart, n)) && RanksWithin(NgramFeatures(localPart, n), 6 + n, 7 + n)
  {
  }

  /** The shape shared by every context, stated over its four parts. */
  lemma LayoutOfParts(summary: seq<Feature>, ngram2: seq<Feature>, ngram3: seq<Feature>, domain: seq<Feature>)
    requires |summary| == 8 && Ranked(summary) && RanksWithin(summary, 0, 8)
    requires |ngram2| <= 1 && Ranked(ngram2) && RanksWithin(ngram2, 8, 9)
    requires |ngram3| <= 1 && Ranked(ngram3) && RanksWithin(ngram3, 9, 10)
    requires |domain| == 2 && domain[0].HnHVow? && domain[1].Tld?
    ensures 10 <= |summary + ngram2 + ngram3 + domain| <= 12
    ensures Ranked(summary + ngram2 + ngram3 + domain)
    ensures (summary + ngram2 + ngram3 + domain)[..8] == summary
    ensures (summary + ngram2 + ngram3 + domain)[|summary + ngram2 + ngram3 + domain| - 2] == domain[0]
    ensures forall k :: 0 <= k < |summary + ngram2 + ngram3 + domain| ==>
      ((summary + ngram2 + ngram3 + domain)[k].Tld? <==> k == |summary + ngram2 + ngram3 + domain| - 1)
  {
    var fs := summary + ngram2 + ngram3 + domain;
    assert Ranked(domain) && RanksWithin(domain, 10, 12);
    RankedAppend(summary, ngram2, 0, 8, 9);
    RankedAppend(summary + ngram2, ngram3, 0, 9, 10);
    RankedAppend(summary + ngram2 + ngram3, domain, 0, 10, 12);
    assert fs[..8] == summary;
  }

  /** The context of an address with a non-empty local part: the eight summary features,
      then at most one `ngram2` and one `ngram3`, then `hnHVow` and the single TLD
      feature, so ten to twelve features in the fixed order. */
  lemma FeatureLayout(input: string)
    requires Features(input).Ok?
    ensures 10 <= |Features(input).value| <= 12
    ensures Ranked(Features(input).value)
    ensures Features(input).value[..8] == LocalPartFeatures(LocalPart(input))
    ensures Features(input).value[|Features(input).value| - 2].HnHVow?
    ensures forall k :: 0 <= k < |Features(input).value| ==>
      (Features(input).value[k].Tld? <==> k == |Features(input).value| - 1)
  {
    var localPart := LocalPart(input);
    var summary := LocalPartFeatures(localPart);
    var ngram2 := NgramFeatures(localPart, 2);
    var ngram3 := NgramFeatures(localPart, 3);
    var domain := DomainFeatures(Domain(input));
    assert LocalPartContextBelow(localPart, 3) == summary + ngram2;
    assert LocalPartContextBelow(localPart, 4) == summary + ngram2 + ngram3;
    assert Features(input).value == summary + ngram2 + ngram3 + domain;
    NgramFeatureSpec(localPart, 2);
    NgramFeatureSpec(localPart, 3);
    SummaryRanked(localPart);
    NgramRanked(localPart, 2);
    NgramRanked(localPart, 3);
    LayoutOfParts(summary, ngram2, ngram3, domain);
  }

  /** The tokens of a context: ten to twelve of them, the last one naming the class of
      the top-level label and no other one naming a class. */
  lemma ContextTokens(input: string)
    requires Features(input).Ok?
    ensures 10 <= |RenderAll(Features(input).value)| <= 12
    ensures Last(RenderAll(Features(input).value)) in {"oTld", "cTld", "uTld"}
    ensures forall k :: 0 <= k < |RenderAll(Features(input).value)| ==>
      (RenderAll(Features(input).value)[k] in {"oTld", "cTld", "uTld"} <==> k == |RenderAll(Features(input).value)| - 1)
  {
    FeatureLayout(input);
    TldTokenLast(Features(input).value);
  }

  /** A feature list whose only TLD feature is the last renders to tokens whose only
      TLD token is the last. */
  lemma TldTokenLast(fs: seq<Feature>)
    requires 10 <= |fs| <= 12
    requires forall k :: 0 <= k < |fs| ==> (fs[k].Tld? <==> k == |fs| - 1)
    ensures 10 <= |RenderAll(fs)| <= 12
    ensures Last(RenderAll(fs)) in {"oTld", "cTld", "uTld"}
    ensures forall k :: 0 <= k < |RenderAll(fs)| ==>
      (RenderAll(fs)[k] in {"oTld", "cTld", "uTld"} <==> k == |RenderAll(fs)| - 1)
  {
    RenderAllSpec(fs);
    assert fs[|fs| - 1].Tld?;
    assert Last(RenderAll(fs)) == Render(fs[|fs| - 1]);
    forall k | 0 <= k < |fs| - 1
      ensures RenderAll(fs)[k] !in {"oTld", "cTld", "uTld"}
    {
      NonTldToken(fs[k]);
    }
  }

  /** Every token other than a TLD feature's has the form `name=value`, so it is never
      one of the three TLD tokens. */
  lemma NonTldToken(f: Feature)
    requires !f.Tld?
    ensures Render(f) !in {"oTld", "cTld", "uTld"}
  {
    assert Render(f)[0] in {'n', 'p', 'h'};
  }
}
