/** Extraction over header fields: prepending and rearranging. */
module FieldOrder {
  import opened Text
  import opened Utf8
  import opened Headers
  import opened Bags
  import opened Chain
  import opened ChainProofs

  type ArcResult = Result<seq<RawHeader>, ChainError>

  function Joined(a: ArcResult, b: ArcResult): ArcResult {
    if a.Ok? && b.Ok? then Ok(a.value + b.value) else Err(Malformed)
  }

  lemma {:induction false} ArcFieldsError(fields: seq<string>)
    ensures ArcFields(fields).Err? ==> ArcFields(fields) == Err(Malformed)
  {
    if fields != [] {
      ArcFieldsError(fields[1..]);
    }
  }

  lemma {:induction false} ArcFieldsAppend(a: seq<string>, b: seq<string>)
    ensures ArcFields(a + b) == Joined(ArcFields(a), ArcFields(b))
  {
    ArcFieldsError(b);
    if a == [] {
      assert a + b == b;
      assert ArcFields(b).Ok? ==> [] + ArcFields(b).value == ArcFields(b).value;
    } else {
      assert (a + b)[1..] == a[1..] + b;
      ArcFieldsAppend(a[1..], b);
      if PushArc(a[0]).Header? && ArcFields(a[1..]).Ok? && ArcFields(b).Ok? {
        var h := PushArc(a[0]).header;
        assert [h] + (ArcFields(a[1..]).value + ArcFields(b).value)
            == [h] + ArcFields(a[1..]).value + ArcFields(b).value;
      }
    }
  }

  /** Two readings agree up to order. */
  ghost predicate SameArc(a: ArcResult, b: ArcResult) {
    (a.Err? && a == b) || (a.Ok? && b.Ok? && multiset(a.value) == multiset(b.value))
  }

  lemma {:induction false} ArcFieldsAround(x: string, p: seq<string>, q: seq<string>)
    ensures SameArc(ArcFields(p + [x] + q), ArcFields([x] + (p + q)))
  {
    ArcFieldsAppend(p + [x], q);
    ArcFieldsAppend(p, [x]);
    ArcFieldsAppend([x], p + q);
    ArcFieldsAppend(p, q);
  }

  lemma {:induction false} ArcFieldsCons(x: string, a: seq<string>, b: seq<string>)
    requires SameArc(ArcFields(a), ArcFields(b))
    ensures SameArc(ArcFields([x] + a), ArcFields([x] + b))
  {
    ArcFieldsAppend([x], a);
    ArcFieldsAppend([x], b);
  }

  lemma {:induction false} ArcFieldsBag(a: seq<string>, b: seq<string>)
    requires multiset(a) == multiset(b)
    ensures SameArc(ArcFields(a), ArcFields(b))
  {
    SameBagMembers(a, b);
    if a == [] {
      assert b == [];
    } else {
      hide ArcFields;
      var x := a[0];
      assert x in b;
      var i :| 0 <= i < |b| && b[i] == x;
      assert a == [x] + a[1..];
      assert b == b[..i] + [x] + b[i + 1..];
      assert multiset(a[1..]) == multiset(a) - multiset{x} == multiset(b[..i] + b[i + 1..]);
      ArcFieldsBag(a[1..], b[..i] + b[i + 1..]);
      ArcFieldsCons(x, a[1..], b[..i] + b[i + 1..]);
      ArcFieldsAround(x, b[..i], b[i + 1..]);
    }
  }

  /** Messages whose header fields are rearrangements of each other extract to the same answer,
      error kind included, except where `i=0` meets a duplicate. */
  lemma {:induction false} ExtractAnyOrder(m: bytes, n: bytes)
    requires HeaderText(m).Some? && HeaderText(n).Some?
    requires multiset(Fields(HeaderText(m).value)) == multiset(Fields(HeaderText(n).value))
    ensures (ArcHeaders(m).Ok? ==> !OrderSensitive(ArcHeaders(m).value)) ==> Extract(m) == Extract(n)
  {
    ArcFieldsBag(Fields(HeaderText(m).value), Fields(HeaderText(n).value));
    if ArcHeaders(m).Ok? && !OrderSensitive(ArcHeaders(m).value) {
      HeadersAnyOrder(ArcHeaders(m).value, ArcHeaders(n).value);
    }
  }

  /** Prepended header lines contribute their ARC headers in front, or make the message malformed. */
  lemma {:induction false} ArcHeadersPrepend(p: bytes, m: bytes)
    requires HeaderLines(p) && StartsField(m)
    ensures ArcHeaders(p + m) ==
            if Decode(p).Some? then Joined(ArcFields(Fields(Decode(p).value)), ArcHeaders(m))
            else Err(Malformed)
  {
    FieldsPrepend(p, m);
    if HeaderText(p + m).Some? {
      ArcFieldsAppend(Fields(Decode(p).value), Fields(HeaderText(m).value));
    }
  }
}
