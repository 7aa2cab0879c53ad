/** Adding one instance to a message's chain (section 5.1 of RFC 8617). */
module Sealer {
  import opened Text
  import opened Utf8
  import opened Chain
  import opened Scheme
  import opened Ams
  import opened Seals

  datatype ArcSealer = ArcSealer(key: Key, domain: string, selector: string)

  function HighestInstance(prior: seq<Instance>): nat {
    if prior == [] then 0
    else
      var rest := HighestInstance(prior[..|prior| - 1]);
      var last := prior[|prior| - 1].instance;
      if last >= rest then last else rest
  }

  function NextInstance(prior: seq<Instance>): Option<nat> {
    var next := HighestInstance(prior) + 1;
    if next <= MAX_INSTANCE then Some(next) else None
  }

  /** The value of a built header line: after the colon, without the CRLF. */
  function HeaderValue(line: string): Option<string> {
    match SplitOnce(line, ':')
    case None => None
    case Some((_, after)) =>
      Some(if |after| >= 2 && after[|after| - 2..] == CRLF then after[..|after| - 2] else after)
  }

  function AarValue(instance: nat, domain: string, results: string): string {
    " i=" + Decimal(instance) + "; " + domain + "; " + results
  }

  /** The three header lines to prepend, newest first; nothing without From or when the chain is full. */
  function SealMessage(
      suite: Suite, sealer: ArcSealer, raw: bytes, results: string, prior: seq<Instance>,
          cv: ChainValidation): Option<string>
  {
    match NextInstance(prior)
    case None => None
    case Some(instance) =>
      match AmsValue(suite, sealer.key, instance, sealer.domain, sealer.selector, raw)
      case None => None
      case Some(built) =>
        var amsLine := HeaderLine(Ams.AMS_NAME, built);
        match HeaderValue(amsLine)
        case None => None
        case Some(amsValue) =>
          var aarValue := AarValue(instance, sealer.domain, results);
          var sealValue := SealValue(suite, sealer.key, instance, sealer.domain, sealer.selector, cv, prior, aarValue,
              amsValue);
          Some(HeaderLine(SEAL_NAME, sealValue) + amsLine + HeaderLine(AAR_NAME, aarValue))
  }
}
