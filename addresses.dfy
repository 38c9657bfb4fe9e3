/**
 * `find_addresses_in_text`: whitespace normalisation, then the two regex
 * tiers walked in order, keeping each stripped match of at least 8
 * characters the first time it is seen.
 *
 * The regex engine is not modelled: a `Matcher` gives, for a tier and a
 * text, the `group(1)` strings of `re.finditer` in the order they are found.
 */
module Addresses {
  import opened Strings
  import opened FirstOccurrence

  /** The two entries of `ADDR_REGEXES`: the labelled pattern, then the bare street line. */
  datatype Tier = Labelled | Bare

  /** The order in which `find_addresses_in_text` walks the tiers. */
  const Tiers: seq<Tier> := [Labelled, Bare]

  /** `[m.group(1) for m in re.finditer(pattern, t, flags=re.IGNORECASE)]` for the pattern of a tier. */
  type Matcher = (Tier, string) -> seq<string>

  /** The shortest address kept. */
  const MinAddressLength := 8

  /** The class `[ \t]` of the first normalisation. */
  predicate IsBlank(c: char)
  {
    c == ' ' || c == '\t'
  }

  /**
   * `re.sub(r"[ \t]+", " ", s)`: every run of spaces and tabs becomes one
   * space. A blank followed by another blank is dropped, and the last blank
   * of a run is replaced by the space.
   */
  function CollapseBlanks(s: string): (r: string)
    ensures |r| <= |s|
  {
    if s == [] then []
    else if IsBlank(s[0]) && |s| > 1 && IsBlank(s[1]) then CollapseBlanks(s[1..])
    else [if IsBlank(s[0]) then ' ' else s[0]] + CollapseBlanks(s[1..])
  }

  /** `re.sub(r"\r", "", s)`. */
  function RemoveCR(s: string): (r: string)
    ensures |r| <= |s|
    ensures '\r' !in r
  {
    if s == [] then []
    else if s[0] == '\r' then RemoveCR(s[1..])
    else [s[0]] + RemoveCR(s[1..])
  }

  /** The text the patterns are matched against. */
  function Normalise(text: string): (r: string)
    ensures |r| <= |text|
    ensures '\r' !in r
  {
    RemoveCR(CollapseBlanks(text))
  }

  /** Strips every match, keeping their order. */
  function Stripped(ms: seq<string>): (r: seq<string>)
    ensures |r| == |ms| && forall i :: 0 <= i < |ms| ==> r[i] == Strip(ms[i])
  {
    if ms == [] then [] else Stripped(ms[..|ms| - 1]) + [Strip(ms[|ms| - 1])]
  }

  /** The stripped matches of the first `n` tiers, tier after tier, each in match order. */
  function TierCandidates(finditer: Matcher, t: string, n: nat): seq<string>
    requires n <= |Tiers|
  {
    if n == 0 then [] else TierCandidates(finditer, t, n - 1) + Stripped(finditer(Tiers[n - 1], t))
  }

  /** The filter `len(addr) >= 8`. */
  predicate IsLongEnough(addr: string)
  {
    |addr| >= MinAddressLength
  }

  /** What `find_addresses_in_text(text)` returns. */
  function AddressesIn(finditer: Matcher, text: string): (r: seq<string>)
    ensures forall i :: 0 <= i < |r| ==> |r[i]| >= MinAddressLength
  {
    KeepFirstAccepts(TierCandidates(finditer, Normalise(text), |Tiers|), Same, IsLongEnough);
    KeepFirst(TierCandidates(finditer, Normalise(text), |Tiers|), Same, IsLongEnough)
  }

  /** `find_addresses_in_text`: the nested loop over tiers and matches with the `not in addrs` check. */
  method FindAddresses(text: string, finditer: Matcher) returns (addrs: seq<string>)
    ensures addrs == AddressesIn(finditer, text)
  {
    var t := CollapseBlanks(text);
    t := RemoveCR(t);
    addrs := [];
    for p := 0 to |Tiers|
      invariant addrs == KeepFirst(TierCandidates(finditer, t, p), Same, IsLongEnough)
    {
      addrs := CollectMatches(addrs, TierCandidates(finditer, t, p), finditer(Tiers[p], t));
    }
  }

  /** The inner loop of `find_addresses_in_text` over the matches of one tier. */
  method CollectMatches(addrs: seq<string>, ghost walked: seq<string>, matches: seq<string>) returns (out: seq<string>)
    requires addrs == KeepFirst(walked, Same, IsLongEnough)
    ensures out == KeepFirst(walked + Stripped(matches), Same, IsLongEnough)
  {
    out := addrs;
    assert walked + Stripped(matches[..0]) == walked;
    for m := 0 to |matches|
      invariant out == KeepFirst(walked + Stripped(matches[..m]), Same, IsLongEnough)
    {
      var addr := Strip(matches[m]);
      ghost var before := walked + Stripped(matches[..m]);
      KeepFirstStepSame(before, addr, IsLongEnough);
      if |addr| >= MinAddressLength && addr !in out {
        out := out + [addr];
      }
      StrippedStep(walked, matches, m);
    }
    assert matches[..|matches|] == matches;
  }

  /** Taking one more match extends the walked candidates by its stripped form. */
  lemma StrippedStep(walked: seq<string>, matches: seq<string>, m: nat)
    requires m < |matches|
    ensures walked + Stripped(matches[..m + 1]) == (walked + Stripped(matches[..m])) + [Strip(matches[m])]
  {
    assert matches[..m + 1][..m] == matches[..m];
  }

  /** Collapsing distributes over a split that does not cut a run of blanks. */
  lemma {:induction false} CollapseConcat(a: string, b: string)
    requires a == [] || b == [] || !IsBlank(a[|a| - 1]) || !IsBlank(b[0])
    ensures CollapseBlanks(a + b) == CollapseBlanks(a) + CollapseBlanks(b)
  {
    if a == [] {
      assert a + b == b;
    } else {
      var ab := a + b;
      assert ab[1..] == a[1..] + b;
      assert ab[0] == a[0];
      if |a| == 1 {
        assert a[1..] == [];
      } else {
        assert ab[1] == a[1];
        CollapseConcat(a[1..], b);
      }
    }
  }

  /** A non-empty run of spaces and tabs becomes exactly one space. */
  lemma {:induction false} CollapseRun(s: string)
    requires s != [] && forall i :: 0 <= i < |s| ==> IsBlank(s[i])
    ensures CollapseBlanks(s) == " "
  {
    if |s| > 1 {
      CollapseRun(s[1..]);
    }
  }

  /** Text without spaces and tabs is left alone. */
  lemma {:induction false} CollapseNoBlanks(s: string)
    requires forall i :: 0 <= i < |s| ==> !IsBlank(s[i])
    ensures CollapseBlanks(s) == s
  {
    if s != [] {
      CollapseNoBlanks(s[1..]);
    }
  }

  /** Collapsing leaves no tab and no two adjacent spaces, and starts like its input. */
  lemma {:induction false} CollapseProperties(s: string)
    ensures var r := CollapseBlanks(s);
            '\t' !in r &&
            (forall i :: 0 <= i < |r| - 1 ==> !(r[i] == ' ' && r[i + 1] == ' ')) &&
            (s == [] <==> r == []) &&
            (s != [] ==> r[0] == if IsBlank(s[0]) then ' ' else s[0])
  {
    if s != [] {
      var r := CollapseBlanks(s);
      CollapseProperties(s[1..]);
      var tail := CollapseBlanks(s[1..]);
      if !(IsBlank(s[0]) && |s| > 1 && IsBlank(s[1])) {
        assert r == [r[0]] + tail;
        forall i | 0 <= i < |r| - 1 ensures !(r[i] == ' ' && r[i + 1] == ' ') {
          if i > 0 {
            assert r[i] == tail[i - 1] && r[i + 1] == tail[i];
          }
        }
      }
    }
  }

  /** Removing carriage returns keeps every other character and drops all `\r`. */
  lemma {:induction false} RemoveCRProperties(s: string)
    ensures forall c :: c in RemoveCR(s) <==> c in s && c != '\r'
  {
    if s != [] {
      RemoveCRProperties(s[1..]);
      assert s == [s[0]] + s[1..];
    }
  }

  /** Removing carriage returns works piecewise, so every other character is kept in order. */
  lemma {:induction false} RemoveCRConcat(a: string, b: string)
    ensures RemoveCR(a + b) == RemoveCR(a) + RemoveCR(b)
  {
    if a != [] {
      assert (a + b)[1..] == a[1..] + b;
      RemoveCRConcat(a[1..], b);
    } else {
      assert a + b == b;
    }
  }

  /** Text without carriage returns is left unchanged. */
  lemma {:induction false} RemoveCRNoCR(s: string)
    requires '\r' !in s
    ensures RemoveCR(s) == s
  {
    if s != [] {
      assert '\r' !in s[1..];
      RemoveCRNoCR(s[1..]);
    }
  }

  /** After normalisation the text holds no tab and no carriage return. */
  lemma NormaliseRemovesTabsAndCR(text: string)
    ensures '\t' !in Normalise(text) && '\r' !in Normalise(text)
  {
    CollapseProperties(text);
    RemoveCRProperties(CollapseBlanks(text));
  }

  /** Removing `\r` after collapsing can leave two adjacent spaces. */
  lemma NormaliseCanLeaveDoubleSpace()
    ensures Normalise(" \r ") == "  "
  {
    assert CollapseBlanks(" ") == " ";
    assert CollapseBlanks("\r ") == "\r ";
    assert CollapseBlanks(" \r ") == " \r ";
    assert RemoveCR(" ") == " ";
    assert RemoveCR("\r ") == " ";
  }

  /** The candidates of both tiers: the stripped labelled matches, then the stripped bare matches. */
  lemma AllCandidates(finditer: Matcher, t: string)
    ensures TierCandidates(finditer, t, |Tiers|) ==
            Stripped(finditer(Labelled, t)) + Stripped(finditer(Bare, t))
  {
    assert TierCandidates(finditer, t, 1) == Stripped(finditer(Labelled, t));
  }

  /** Every address returned is a stripped match of one of the tiers, at least 8 characters long. */
  lemma AddressesAreLongMatches(finditer: Matcher, text: string, i: nat)
    requires i < |AddressesIn(finditer, text)|
    ensures var a := AddressesIn(finditer, text)[i];
            var t := Normalise(text);
            |a| >= MinAddressLength &&
            exists tier: Tier, j :: 0 <= j < |finditer(tier, t)| && Strip(finditer(tier, t)[j]) == a
  {
    var t := Normalise(text);
    var labelled := Stripped(finditer(Labelled, t));
    var bare := Stripped(finditer(Bare, t));
    var s := labelled + bare;
    AllCandidates(finditer, t);
    KeepFirstOnlyFirsts(s, Same, IsLongEnough, i);
    var k :| IsFirst(s, Same, IsLongEnough, k) && AddressesIn(finditer, text)[i] == s[k];
    if k < |labelled| {
      assert s[k] == labelled[k] == Strip(finditer(Labelled, t)[k]);
    } else {
      assert s[k] == bare[k - |labelled|] == Strip(finditer(Bare, t)[k - |labelled|]);
    }
  }

  /** Every address returned is at least 8 characters long. */
  lemma AddressesLong(finditer: Matcher, text: string)
    ensures forall a :: a in AddressesIn(finditer, text) ==> |a| >= MinAddressLength
  {
    KeepFirstAccepts(TierCandidates(finditer, Normalise(text), |Tiers|), Same, IsLongEnough);
  }

  /** The result holds no exact duplicates. */
  lemma AddressesDistinct(finditer: Matcher, text: string)
    ensures var r := AddressesIn(finditer, text);
            forall i, j :: 0 <= i < j < |r| ==> r[i] != r[j]
  {
    var r := AddressesIn(finditer, text);
    var s := TierCandidates(finditer, Normalise(text), |Tiers|);
    var same: string -> string := Same;
    KeepFirstDistinctKeys(s, same, IsLongEnough);
    assert r == KeepFirst(s, same, IsLongEnough);
    forall i, j | 0 <= i < j < |r| ensures r[i] != r[j] {
      assert same(r[i]) != same(r[j]);
    }
  }

  /** The position of the stripped `j`-th match of `tier` among the candidates. */
  lemma CandidateIndex(finditer: Matcher, t: string, tier: Tier, j: nat) returns (k: nat)
    requires j < |finditer(tier, t)|
    ensures k < |TierCandidates(finditer, t, |Tiers|)|
    ensures TierCandidates(finditer, t, |Tiers|)[k] == Strip(finditer(tier, t)[j])
  {
    var labelled := Stripped(finditer(Labelled, t));
    var bare := Stripped(finditer(Bare, t));
    var m := Strip(finditer(tier, t)[j]);
    AllCandidates(finditer, t);
    if tier == Labelled {
      k := j;
      assert labelled[j] == m;
      assert (labelled + bare)[k] == labelled[j];
    } else {
      k := |labelled| + j;
      assert bare[j] == m;
      assert (labelled + bare)[k] == bare[j];
    }
  }

  /** Every match of either tier whose stripped form is at least 8 characters long is returned. */
  lemma AddressesComplete(finditer: Matcher, text: string, tier: Tier, j: nat)
    requires j < |finditer(tier, Normalise(text))|
    requires |Strip(finditer(tier, Normalise(text))[j])| >= MinAddressLength
    ensures Strip(finditer(tier, Normalise(text))[j]) in AddressesIn(finditer, text)
  {
    var t := Normalise(text);
    var k := CandidateIndex(finditer, t, tier, j);
    KeepFirstCoversSame(TierCandidates(finditer, t, |Tiers|), IsLongEnough, k);
  }

  /**
   * The labelled tier is walked first: its kept matches form a prefix of the
   * result, and every later address is a bare match that was not already
   * collected by the labelled tier.
   */
  lemma LabelledBeforeBare(finditer: Matcher, text: string)
    ensures var t := Normalise(text);
            var l := KeepFirst(Stripped(finditer(Labelled, t)), Same, IsLongEnough);
            var r := AddressesIn(finditer, text);
            |l| <= |r| && r[..|l|] == l &&
            forall i :: |l| <= i < |r| ==> r[i] !in l && r[i] in Stripped(finditer(Bare, t))
  {
    var t := Normalise(text);
    var labelled := Stripped(finditer(Labelled, t));
    var bare := Stripped(finditer(Bare, t));
    AllCandidates(finditer, t);
    var same: string -> string := Same;
    var l := KeepFirst(labelled, same, IsLongEnough);
    var r := AddressesIn(finditer, text);
    assert r == KeepFirst(labelled + bare, same, IsLongEnough);
    KeepFirstAppend(labelled, bare, same, IsLongEnough);
    forall i | |l| <= i < |r| ensures r[i] !in l {
      KeysOfMembership(l, same, r[i]);
    }
  }

  /**
   * First occurrence wins and order is kept: the result lists, in order, the
   * candidates at the positions where a long candidate appears for the first time.
   */
  lemma AddressesInFirstOccurrenceOrder(finditer: Matcher, text: string)
    ensures var s := TierCandidates(finditer, Normalise(text), |Tiers|);
            var p := FirstPositions(s, Same, IsLongEnough, |s|);
            var r := AddressesIn(finditer, text);
            |r| == |p| && forall i :: 0 <= i < |p| ==> r[i] == s[p[i]]
  {
    var s := TierCandidates(finditer, Normalise(text), |Tiers|);
    KeepFirstSelectsFirstPositions(s, Same, IsLongEnough);
  }
}
