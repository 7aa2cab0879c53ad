/** ARC-Seal: signing and verifying the chain of ARC headers. */
module Seals {
  import opened Text
  import opened Utf8
  import opened Canon
  import opened Chain
  import opened ChainProofs
  import opened Signature
  import opened Scheme

  const AAR_NAME := "ARC-Authentication-Results"
  const AMS_NAME := "ARC-Message-Signature"
  const SEAL_NAME := "ARC-Seal"

  predicate Ascending(s: seq<Instance>) {
    forall i, j :: 0 <= i < j < |s| ==> s[i].instance <= s[j].instance
  }

  /** Insert after every element that is not larger. */
  function Insert(s: seq<Instance>, x: Instance): seq<Instance> {
    if s == [] || s[|s| - 1].instance <= x.instance then s + [x]
    else Insert(s[..|s| - 1], x) + [s[|s| - 1]]
  }

  /** The stable sort by instance number. */
  function Sorted(s: seq<Instance>): seq<Instance> {
    if s == [] then [] else Insert(Sorted(s[..|s| - 1]), s[|s| - 1])
  }

  lemma {:induction false} InsertBag(s: seq<Instance>, x: Instance)
    ensures multiset(Insert(s, x)) == multiset(s) + multiset{x}
  {
    if !(s == [] || s[|s| - 1].instance <= x.instance) {
      InsertBag(s[..|s| - 1], x);
      assert s == s[..|s| - 1] + [s[|s| - 1]];
    }
  }

  lemma {:induction false} InsertAscending(s: seq<Instance>, x: Instance)
    requires Ascending(s)
    ensures Ascending(Insert(s, x))
  {
    if !(s == [] || s[|s| - 1].instance <= x.instance) {
      var front := s[..|s| - 1];
      InsertAscending(front, x);
      InsertBag(front, x);
      assert Insert(s, x) == Insert(front, x) + [s[|s| - 1]];
      hide Insert;
      forall y | y in Insert(front, x)
        ensures y.instance <= s[|s| - 1].instance
      {
        assert y in multiset(Insert(front, x));
        assert y == x || y in front;
      }
    }
  }

  /** Sorting rearranges into ascending order. */
  lemma {:induction false} SortedMeaning(s: seq<Instance>)
    ensures Ascending(Sorted(s)) && multiset(Sorted(s)) == multiset(s)
  {
    if s != [] {
      var front, last := s[..|s| - 1], s[|s| - 1];
      SortedMeaning(front);
      InsertBag(Sorted(front), last);
      InsertAscending(Sorted(front), last);
      assert s == front + [last];
    }
  }

  lemma {:induction false} SortedIdentity(s: seq<Instance>)
    requires Ascending(s)
    ensures Sorted(s) == s
  {
    if s != [] {
      var front, last := s[..|s| - 1], s[|s| - 1];
      assert Ascending(front);
      SortedIdentity(front);
      assert Insert(front, last) == front + [last];
      assert front + [last] == s;
    }
  }

  /** An instance's AAR and AMS lines. */
  function InstanceText(authResults: string, messageSignature: string): string {
    CanonHeader(Relaxed, AAR_NAME, authResults) + CanonHeader(Relaxed, AMS_NAME, messageSignature)
  }

  /** What earlier instances contribute to a seal. */
  function PriorText(instances: seq<Instance>): string {
    if instances == [] then ""
    else
      var last := instances[|instances| - 1];
      PriorText(instances[..|instances| - 1])
      + (InstanceText(last.authResults, last.messageSignature) + CanonHeader(Relaxed, SEAL_NAME, last.seal))
  }

  /** The text a seal signs. */
  function SealInput(prior: seq<Instance>, authResults: string, messageSignature: string, stripped: string): string {
    PriorText(prior) + InstanceText(authResults, messageSignature) + CanonLine(Relaxed, SEAL_NAME, stripped)
  }

  function SealTags(instance: nat, domain: string, selector: string, cv: ChainValidation): seq<TagPair> {
    [TagPair("i", Decimal(instance)), TagPair("a", "ed25519-sha256"), TagPair("d", domain),
     TagPair("s", selector), TagPair("cv", CvText(cv))]
  }

  /** The value of the new ARC-Seal header. */
  function SealValue(
      suite: Suite, key: Key, instance: nat, domain: string, selector: string, cv: ChainValidation,
      prior: seq<Instance>, authResults: string, messageSignature: string): string
  {
    var tags := SealTags(instance, domain, selector, cv);
    var input := SealInput(Sorted(prior), authResults, messageSignature, Render(tags + [TagPair("b", "")]));
    Render(tags + [TagPair("b", suite.encode64(suite.sign(key, Encode(input))))])
  }

  /** What one instance contributes to the check of the seal numbered `number`. */
  function CheckedText(instance: Instance, number: nat, rawValue: string): string {
    if instance.instance > number then ""
    else
      InstanceText(instance.authResults, instance.messageSignature)
      + (if instance.instance == number then CanonLine(Relaxed, SEAL_NAME, StripB(rawValue))
         else CanonHeader(Relaxed, SEAL_NAME, instance.seal))
  }

  function CheckedInput(instances: seq<Instance>, number: nat, rawValue: string): string {
    if instances == [] then ""
    else
      CheckedInput(instances[..|instances| - 1], number, rawValue)
      + CheckedText(instances[|instances| - 1], number, rawValue)
  }

  function VerifySeal(suite: Suite, dns: Dns, seal: SealSig, rawValue: string, instances: seq<Instance>): Outcome {
    CheckSignature(suite, dns, seal.selector, seal.domain,
                   CheckedInput(Sorted(instances), seal.instance, rawValue), seal.signature)
  }

  // ----- the loops of the source -----

  method BuildInput(prior: seq<Instance>, authResults: string, messageSignature: string, value: string)
      returns (input: string)
    ensures input == SealInput(Sorted(prior), authResults, messageSignature, value)
  {
    hide InstanceText, CanonHeader, CanonLine;
    var ordered := Sorted(prior);
    input := "";
    for n := 0 to |ordered|
      invariant input == PriorText(ordered[..n])
    {
      var inst := ordered[n];
      assert ordered[..n + 1][..n] == ordered[..n];
      input := input + (InstanceText(inst.authResults, inst.messageSignature)
          + CanonHeader(Relaxed, SEAL_NAME, inst.seal));
    }
    assert ordered[..|ordered|] == ordered;
    input := input + InstanceText(authResults, messageSignature) + CanonLine(Relaxed, SEAL_NAME, value);
  }

  method CheckInput(instances: seq<Instance>, number: nat, rawValue: string) returns (input: string)
    ensures input == CheckedInput(Sorted(instances), number, rawValue)
  {
    hide InstanceText, CanonHeader, CanonLine;
    var ordered := Sorted(instances);
    input := "";
    for n := 0 to |ordered|
      invariant input == CheckedInput(ordered[..n], number, rawValue)
    {
      var inst := ordered[n];
      assert ordered[..n + 1][..n] == ordered[..n];
      if inst.instance > number {
        assert CheckedText(inst, number, rawValue) == "";
        assert input + "" == input;
        continue;
      }
      var text := InstanceText(inst.authResults, inst.messageSignature);
      if inst.instance == number {
        text := text + CanonLine(Relaxed, SEAL_NAME, StripB(rawValue));
      } else {
        text := text + CanonHeader(Relaxed, SEAL_NAME, inst.seal);
      }
      input := input + text;
    }
    assert ordered[..|ordered|] == ordered;
  }

  // ----- lemmas -----

  /** A seal's input depends only on the instances up to its own. */
  lemma {:induction false} CheckedUpTo(instances: seq<Instance>, number: nat, rawValue: string)
    requires Numbered(instances) && 1 <= number <= |instances|
    ensures CheckedInput(instances, number, rawValue)
            == SealInput(instances[..number - 1], instances[number - 1].authResults,
                         instances[number - 1].messageSignature, StripB(rawValue))
  {
    hide InstanceText, CanonHeader, CanonLine;
    var front := instances[..|instances| - 1];
    if |instances| == number {
      CheckedPrior(front, number, rawValue);
    } else {
      CheckedUpTo(front, number, rawValue);
      assert front[..number - 1] == instances[..number - 1];
    }
  }

  lemma {:induction false} CheckedPrior(instances: seq<Instance>, number: nat, rawValue: string)
    requires Numbered(instances) && |instances| < number
    ensures CheckedInput(instances, number, rawValue) == PriorText(instances)
  {
    if instances != [] {
      CheckedPrior(instances[..|instances| - 1], number, rawValue);
    }
  }

  lemma {:induction false} NumberedSorted(instances: seq<Instance>)
    requires Numbered(instances)
    ensures Sorted(instances) == instances
  {
    SortedIdentity(instances);
  }

  /** Instances added later leave the check of an earlier seal as it was. */
  lemma {:induction false} CheckedExtends(instances: seq<Instance>, more: seq<Instance>, number: nat, rawValue: string)
    requires Numbered(instances + more) && 1 <= number <= |instances|
    ensures CheckedInput(Sorted(instances + more), number, rawValue)
        == CheckedInput(Sorted(instances), number, rawValue)
  {
    hide InstanceText, CanonHeader, CanonLine;
    assert forall k :: 0 <= k < |instances| ==> (instances + more)[k] == instances[k];
    NumberedSorted(instances + more);
    NumberedSorted(instances);
    CheckedUpTo(instances + more, number, rawValue);
    CheckedUpTo(instances, number, rawValue);
    assert (instances + more)[..number - 1] == instances[..number - 1];
  }
}
