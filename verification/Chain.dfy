/** ARC chain extraction (section 5.1.1 of RFC 8617). */
module Chain {
  import opened Text
  import opened Utf8
  import opened Headers

  const MAX_INSTANCE: nat := 50

  datatype Kind = AuthResults | MessageSignature | Seal

  function KindOf(name: string): Option<Kind> {
    var lower := Lower(name);
    if lower == "arc-authentication-results" then Some(AuthResults)
    else if lower == "arc-message-signature" then Some(MessageSignature)
    else if lower == "arc-seal" then Some(Seal)
    else None
  }

  datatype ChainValidation = CvNone | CvPass | CvFail

  function ParseCv(value: string): Option<ChainValidation> {
    var lower := Lower(Trim(value));
    if lower == "none" then Some(CvNone)
    else if lower == "pass" then Some(CvPass)
    else if lower == "fail" then Some(CvFail)
    else None
  }

  function CvText(cv: ChainValidation): string {
    match cv
    case CvNone => "none"
    case CvPass => "pass"
    case CvFail => "fail"
  }

  datatype Instance = Instance(instance: nat, authResults: string, messageSignature: string, seal: string)

  datatype ChainError = Malformed | BadInstance | Duplicate | NonContiguous | Incomplete

  /** `Panics`: the slot index `instance - 1` underflows on `i=0`. */
  datatype Extracted = Absent | Chain(instances: seq<Instance>) | Broken(error: ChainError) | Panics

  datatype RawHeader = RawHeader(kind: Kind, instance: nat, value: string)

  /** The value of the first `key=` part; only the first `=` of a part separates. */
  function TagIn(parts: seq<string>, key: string): Option<string> {
    if parts == [] then None
    else
      match SplitOnce(parts[0], '=')
      case None => TagIn(parts[1..], key)
      case Some((name, value)) =>
        if Lower(Trim(name)) == Lower(key) then Some(Trim(value)) else TagIn(parts[1..], key)
  }

  function Tag(header: string, key: string): Option<string> {
    TagIn(Split(header, ';'), key)
  }

  datatype Pushed = Skip | Bad | Header(header: RawHeader)

  /** What one unfolded field contributes to the ARC headers. */
  function PushArc(line: string): Pushed {
    match SplitOnce(line, ':')
    case None => Skip
    case Some((name, rest)) =>
      match KindOf(TrimEnd(name))
      case None => Skip
      case Some(kind) =>
        var value := TrimStart(rest);
        match Tag(value, "i")
        case None => Bad
        case Some(i) =>
          match ParseUnsigned(i, MAX_U32)
          case None => Bad
          case Some(n) => Header(RawHeader(kind, n, value))
  }

  /** The ARC headers among `fields`, in document order; an error when one is malformed. */
  function ArcFields(fields: seq<string>): Result<seq<RawHeader>, ChainError> {
    if fields == [] then Ok([])
    else
      match PushArc(fields[0])
      case Bad => Err(Malformed)
      case Skip => ArcFields(fields[1..])
      case Header(h) =>
        match ArcFields(fields[1..])
        case Err(e) => Err(e)
        case Ok(rest) => Ok([h] + rest)
  }

  function ArcHeaders(raw: bytes): Result<seq<RawHeader>, ChainError> {
    match HeaderText(raw)
    case None => Err(Malformed)
    case Some(block) => ArcFields(Fields(block))
  }

  datatype Slot = Slot(aar: Option<string>, ams: Option<string>, seal: Option<string>)

  const EMPTY_SLOT := Slot(None, None, None)

  function Get(slot: Slot, kind: Kind): Option<string> {
    match kind
    case AuthResults => slot.aar
    case MessageSignature => slot.ams
    case Seal => slot.seal
  }

  function Put(slot: Slot, kind: Kind, value: string): Slot {
    match kind
    case AuthResults => slot.(aar := Some(value))
    case MessageSignature => slot.(ams := Some(value))
    case Seal => slot.(seal := Some(value))
  }

  function Highest(hs: seq<RawHeader>): (n: nat)
    ensures forall h :: h in hs ==> h.instance <= n
    ensures hs != [] ==> exists h :: h in hs && h.instance == n
  {
    if hs == [] then 0
    else
      var rest := Highest(hs[1..]);
      assert forall h :: h in hs ==> h == hs[0] || h in hs[1..];
      if hs[0].instance >= rest then hs[0].instance else rest
  }

  datatype Filled = Full(slots: seq<Slot>) | Duplicated | Underflow

  /** Put each header in the slot of its instance, first come first served. */
  function Fill(slots: seq<Slot>, hs: seq<RawHeader>): (r: Filled)
    requires forall h :: h in hs ==> h.instance <= |slots|
    ensures r.Full? ==> |r.slots| == |slots|
    decreases hs
  {
    if hs == [] then Full(slots)
    else
      var h := hs[0];
      if h.instance == 0 then Underflow
      else if Get(slots[h.instance - 1], h.kind).Some? then Duplicated
      else
        Fill(slots[h.instance - 1 := Put(slots[h.instance - 1], h.kind, h.value)], hs[1..])
  }

  /** The instances of the slots from `k` on; the first unusable slot decides the error. */
  function Collect(slots: seq<Slot>, k: nat): (r: Extracted)
    requires k <= |slots|
    ensures r.Chain? || r.Broken?
    decreases |slots| - k
  {
    if k == |slots| then Chain([])
    else
      match slots[k]
      case Slot(Some(aar), Some(ams), Some(seal)) =>
        (match Collect(slots, k + 1)
         case Chain(rest) => Chain([Instance(k + 1, aar, ams, seal)] + rest)
         case other => other)
      case Slot(None, None, None) => Broken(NonContiguous)
      case _ => Broken(Incomplete)
  }

  function EmptyTable(n: nat): (r: seq<Slot>)
    ensures |r| == n
  {
    seq(n, _ => EMPTY_SLOT)
  }

  function ExtractHeaders(hs: seq<RawHeader>): Extracted {
    if hs == [] then Absent
    else
      var highest := Highest(hs);
      if highest == 0 || highest > MAX_INSTANCE then Broken(BadInstance)
      else
        match Fill(EmptyTable(highest), hs)
        case Underflow => Panics
        case Duplicated => Broken(Duplicate)
        case Full(slots) => Collect(slots, 0)
  }

  function Extract(raw: bytes): Extracted {
    match ArcHeaders(raw)
    case Err(e) => Broken(e)
    case Ok(hs) => ExtractHeaders(hs)
  }

  /** The `cv=` of the newest seal. */
  function ChainStatus(instances: seq<Instance>): Option<ChainValidation> {
    if instances == [] then None
    else
      match Tag(instances[|instances| - 1].seal, "cv")
      case None => None
      case Some(cv) => ParseCv(cv)
  }

  // ----- the loops of the source -----

  ghost function After(acc: seq<RawHeader>, rest: Result<seq<RawHeader>, ChainError>): Result<seq<RawHeader>,
      ChainError> {
    if rest.Ok? then Ok(acc + rest.value) else rest
  }

  lemma {:induction false} AfterField(acc: seq<RawHeader>, line: string, rest: seq<string>)
    ensures After(acc, ArcFields([line] + rest)) ==
            match PushArc(line)
            case Bad => Err(Malformed)
            case Skip => After(acc, ArcFields(rest))
            case Header(h) => After(acc + [h], ArcFields(rest))
  {
    assert ([line] + rest)[1..] == rest;
    if PushArc(line).Header? && ArcFields(rest).Ok? {
      var h := PushArc(line).header;
      assert acc + ([h] + ArcFields(rest).value) == acc + [h] + ArcFields(rest).value;
    }
  }

  /** Appends the field's header when it is an ARC one; false when it is malformed. */
  method PushField(headers: seq<RawHeader>, line: string, ghost rest: seq<string>)
    returns (ok: bool, out: seq<RawHeader>)
    ensures !ok ==> After(headers, ArcFields([line] + rest)) == Err(Malformed)
    ensures ok ==> After(headers, ArcFields([line] + rest)) == After(out, ArcFields(rest))
  {
    AfterField(headers, line, rest);
    ok, out := true, headers;
    match PushArc(line)
    case Bad => ok := false;
    case Skip =>
    case Header(h) => out := headers + [h];
  }

  /** Collects the ARC headers line by line, carrying the field being unfolded. */
  method ReadFields(block: string) returns (r: Result<seq<RawHeader>, ChainError>)
    ensures r == ArcFields(Fields(block))
  {
    var lines := Lines(block);
    var headers: seq<RawHeader> := [];
    var current: Option<string> := None;
    ghost var goal := ArcFields(Unfold(lines, None));
    assert lines[0..] == lines;
    assert goal.Ok? ==> headers + goal.value == goal.value;
    for n := 0 to |lines|
      invariant goal == After(headers, ArcFields(Unfold(lines[n..], current)))
    {
      var content := lines[n];
      assert content == lines[n..][0] && lines[n..][1..] == lines[n + 1..];
      if Folded(content) {
        if current.Some? {
          current := Some(current.value + content);
        }
      } else {
        ghost var rest := Unfold(lines[n + 1..], Begin(content));
        assert Unfold(lines[n..], current) == Flush(current) + rest;
        if current.Some? {
          var ok, out := PushField(headers, current.value, rest);
          if !ok {
            return Err(Malformed);
          }
          headers := out;
        } else {
          assert [] + rest == rest;
        }
        current := if content != "" then Some(content) else None;
      }
    }
    assert lines[|lines|..] == [];
    if current.Some? {
      var ok, out := PushField(headers, current.value, []);
      assert [current.value] + [] == [current.value];
      if !ok {
        return Err(Malformed);
      }
      headers := out;
    }
    assert headers + [] == headers;
    r := Ok(headers);
  }

  method ReadArcHeaders(raw: bytes) returns (r: Result<seq<RawHeader>, ChainError>)
    ensures r == ArcHeaders(raw)
  {
    var text := HeaderText(raw);
    if text.None? {
      return Err(Malformed);
    }
    r := ReadFields(text.value);
  }

  /** Puts the headers into a table of `highest` slots, in place. */
  method FillSlots(headers: seq<RawHeader>, highest: nat) returns (r: Filled)
    requires forall h :: h in headers ==> h.instance <= highest
    ensures r == Fill(EmptyTable(highest), headers)
  {
    hide Get, Put;
    var slots := new Slot[highest](_ => EMPTY_SLOT);
    ghost var goal := Fill(EmptyTable(highest), headers);
    assert slots[..] == EmptyTable(highest);
    for n := 0 to |headers|
      invariant forall h :: h in headers[n..] ==> h.instance <= |slots[..]|
      invariant goal == Fill(slots[..], headers[n..])
    {
      var h := headers[n];
      assert h == headers[n..][0] && headers[n..][1..] == headers[n + 1..];
      if h.instance == 0 {
        return Underflow;
      }
      var slot := slots[h.instance - 1];
      if Get(slot, h.kind).Some? {
        return Duplicated;
      }
      ghost var before := slots[..];
      slots[h.instance - 1] := Put(slot, h.kind, h.value);
      assert slots[..] == before[h.instance - 1 := Put(slot, h.kind, h.value)];
    }
    r := Full(slots[..]);
  }

  ghost function Onto(instances: seq<Instance>, rest: Extracted): Extracted {
    if rest.Chain? then Chain(instances + rest.instances) else rest
  }

  lemma {:induction false} OntoPush(instances: seq<Instance>, i: Instance, rest: seq<Instance>)
    ensures Onto(instances, Chain([i] + rest)) == Onto(instances + [i], Chain(rest))
  {
    assert instances + ([i] + rest) == instances + [i] + rest;
  }

  /** Reads the instances off a filled table. */
  method CollectSlots(slots: seq<Slot>) returns (r: Extracted)
    ensures r == Collect(slots, 0)
  {
    var instances: seq<Instance> := [];
    ghost var goal := Collect(slots, 0);
    assert goal.Chain? ==> [] + goal.instances == goal.instances;
    for k := 0 to |slots|
      invariant goal == Onto(instances, Collect(slots, k))
    {
      match slots[k]
      case Slot(Some(aar), Some(ams), Some(seal)) =>
        var instance := Instance(k + 1, aar, ams, seal);
        if Collect(slots, k + 1).Chain? {
          OntoPush(instances, instance, Collect(slots, k + 1).instances);
        }
        instances := instances + [instance];
      case Slot(None, None, None) =>
        return Broken(NonContiguous);
      case _ =>
        return Broken(Incomplete);
    }
    assert instances + [] == instances;
    r := Chain(instances);
  }

  method ExtractChain(raw: bytes) returns (r: Extracted)
    ensures r == Extract(raw)
  {
    var read := ReadArcHeaders(raw);
    if read.Err? {
      return Broken(read.error);
    }
    var headers := read.value;
    if headers == [] {
      return Absent;
    }
    var highest := Highest(headers);
    if highest == 0 || highest > MAX_INSTANCE {
      return Broken(BadInstance);
    }
    var filled := FillSlots(headers, highest);
    match filled
    case Underflow => r := Panics;
    case Duplicated => r := Broken(Duplicate);
    case Full(slots) => r := CollectSlots(slots);
  }
}
