/** What the ARC code takes from elsewhere: the signature scheme, base64, body canonicalization, DNS. */
module Scheme {
  import opened Text
  import opened Utf8
  import opened Canon

  type Key = bytes

  datatype Suite = Suite(
    sign: (Key, bytes) -> bytes,
    publicKey: Key -> bytes,
    verifies: (bytes, bytes, bytes) -> bool,
    digest: bytes -> bytes,
    canonBody: (Mode, bytes) -> bytes,
    encode64: bytes -> string,
    decode64: string -> Option<bytes>)

  predicate Base64Char(c: char) {
    'A' <= c <= 'Z' || 'a' <= c <= 'z' || '0' <= c <= '9' || c == '+' || c == '/' || c == '='
  }

  predicate Base64Text(s: string) {
    forall i :: 0 <= i < |s| ==> Base64Char(s[i])
  }

  /** A signature verifies under its key; base64 decodes to what was encoded and uses its alphabet. */
  ghost predicate Lawful(s: Suite) {
    && (forall k, m :: s.verifies(s.publicKey(k), m, s.sign(k, m)))
    && (forall b :: s.decode64(s.encode64(b)) == Some(b))
    && (forall b :: Base64Text(s.encode64(b)))
  }

  /** A signature verifies for no other message than the one signed. */
  ghost predicate Binding(s: Suite) {
    forall k, a, b :: s.verifies(s.publicKey(k), b, s.sign(k, a)) ==> a == b
  }

  datatype TxtAnswer = Texts(texts: seq<string>) | TemporaryFailure

  type Dns = string -> TxtAnswer

  datatype Outcome = Pass | Fail | TempError | PermError

  /** The key of a key record: the first piece starting with `p=`, decoded or rejected. */
  function ParseKeyIn(decode64: string -> Option<bytes>, parts: seq<string>): Option<bytes> {
    if parts == [] then None
    else
      var tag := Trim(parts[0]);
      if "p=" <= tag then decode64(Compact(tag[2..])) else ParseKeyIn(decode64, parts[1..])
  }

  function FirstKey(decode64: string -> Option<bytes>, texts: seq<string>): Option<bytes> {
    if texts == [] then None
    else
      match ParseKeyIn(decode64, Split(texts[0], ';'))
      case Some(key) => Some(key)
      case None => FirstKey(decode64, texts[1..])
  }

  function KeyName(selector: string, domain: string): string {
    selector + "._domainkey." + domain
  }

  /** Look the key up and check the signature over `input`. */
  function CheckSignature(suite: Suite, dns: Dns, selector: string, domain: string, input: string,
      signature: bytes): Outcome {
    match dns(KeyName(selector, domain))
    case TemporaryFailure => TempError
    case Texts(texts) =>
      match FirstKey(suite.decode64, texts)
      case None => PermError
      case Some(key) => if suite.verifies(key, Encode(input), signature) then Pass else Fail
  }
}
