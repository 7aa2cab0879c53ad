/** Full chain validation (section 5.2 of RFC 8617). */
module Validation {
  import opened Utf8
  import opened Chain
  import opened Signature
  import opened Scheme
  import opened Ams
  import opened Seals

  /** The verdict on a message, or the panic that extraction raises on `i=0`. */
  datatype Verdict = Status(cv: ChainValidation) | Crashed

  function Expected(instance: nat): ChainValidation {
    if instance == 1 then CvNone else CvPass
  }

  /** The seal parses and records the `cv` its position calls for. */
  predicate CvConsistent(suite: Suite, instance: Instance) {
    match ParseSeal(suite.decode64, instance.seal)
    case None => false
    case Some(seal) => seal.chainValidation == Expected(instance.instance)
  }

  predicate CvValuesConsistent(suite: Suite, instances: seq<Instance>) {
    forall k :: 0 <= k < |instances| ==> CvConsistent(suite, instances[k])
  }

  predicate NewestVerifies(suite: Suite, dns: Dns, instances: seq<Instance>, raw: bytes)
    requires instances != []
  {
    var newest := instances[|instances| - 1].messageSignature;
    match ParseMessageSignature(suite.decode64, newest)
    case None => false
    case Some(ams) => VerifyAms(suite, dns, ams, newest, raw) == Pass
  }

  predicate SealVerifies(suite: Suite, dns: Dns, instances: seq<Instance>, instance: Instance) {
    match ParseSeal(suite.decode64, instance.seal)
    case None => false
    case Some(seal) => VerifySeal(suite, dns, seal, instance.seal, instances) == Pass
  }

  function Validate(suite: Suite, dns: Dns, raw: bytes): Verdict {
    match Extract(raw)
    case Panics => Crashed
    case Absent => Status(CvNone)
    case Broken(_) => Status(CvFail)
    case Chain(instances) =>
      if !CvValuesConsistent(suite, instances) then Status(CvFail)
      else if instances == [] then Crashed
      else if !NewestVerifies(suite, dns, instances, raw) then Status(CvFail)
      else if !(forall k :: 0 <= k < |instances| ==> SealVerifies(suite, dns, instances,
          instances[k])) then Status(CvFail)
      else Status(CvPass)
  }
}
