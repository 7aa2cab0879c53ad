/** Header canonicalization (section 3.4 of RFC 6376). */
module Canon {
  import opened Text

  datatype Mode = Simple | Relaxed

  predicate IsFws(c: char) {
    c == ' ' || c == '\t' || c == CR || c == LF
  }

  /** How long the word at the front is. */
  function WordLength(s: string): (n: nat)
    ensures n <= |s|
    ensures forall i :: 0 <= i < n ==> !IsFws(s[i])
    ensures n < |s| ==> IsFws(s[n])
  {
    if s == "" || IsFws(s[0]) then 0 else 1 + WordLength(s[1..])
  }

  /** The stretches between white space. */
  function Words(s: string): seq<string>
    decreases |s|
  {
    if s == "" then []
    else if IsFws(s[0]) then Words(s[1..])
    else
      var n := WordLength(s);
      [s[..n]] + Words(s[n..])
  }

  /** Words with one space between. */
  function Spaced(words: seq<string>): string {
    if words == [] then ""
    else if |words| == 1 then words[0]
    else words[0] + " " + Spaced(words[1..])
  }

  /** The relaxed form of a value. */
  function Collapse(value: string): string {
    Spaced(Words(value))
  }

  function CanonHeader(mode: Mode, name: string, value: string): (r: string)
    ensures |r| >= 2 && r[|r| - 2..] == CRLF
  {
    match mode
    case Simple => name + ":" + value + CRLF
    case Relaxed => Lower(name) + ":" + Collapse(value) + CRLF
  }

  /** A canonical header line without its CRLF. */
  function CanonLine(mode: Mode, name: string, value: string): string {
    var line := CanonHeader(mode, name, value);
    line[..|line| - 2]
  }

  predicate Word(w: string) {
    w != "" && forall i :: 0 <= i < |w| ==> !IsFws(w[i])
  }

  predicate AllWords(words: seq<string>) {
    forall i :: 0 <= i < |words| ==> Word(words[i])
  }

  lemma {:induction false} WordsAreWords(s: string)
    ensures AllWords(Words(s))
    decreases |s|
  {
    if s != "" {
      WordsAreWords(if IsFws(s[0]) then s[1..] else s[WordLength(s)..]);
    }
  }

  lemma {:induction false} WordFirst(w: string, rest: string)
    requires Word(w) && (rest == "" || IsFws(rest[0]))
    ensures Words(w + rest) == [w] + Words(rest)
  {
    var s := w + rest;
    assert forall i :: 0 <= i < |w| ==> s[i] == w[i];
    assert rest != "" ==> s[|w|] == rest[0];
    assert WordLength(s) == |w|;
    assert s[..|w|] == w && s[|w|..] == rest;
  }

  /** Reading spaced words gives the words back. */
  lemma {:induction false} WordsOfSpaced(words: seq<string>)
    requires AllWords(words)
    ensures Words(Spaced(words)) == words
  {
    if |words| == 1 {
      WordFirst(words[0], "");
      assert words[0] + "" == words[0];
    } else if words != [] {
      var rest := Spaced(words[1..]);
      WordsOfSpaced(words[1..]);
      WordFirst(words[0], " " + rest);
      assert (" " + rest)[1..] == rest;
      assert words[0] + (" " + rest) == words[0] + " " + rest;
    }
  }

  /** Two values have the same relaxed form exactly when they have the same words, and the relaxed form is its
      own relaxed form. */
  lemma {:induction false} CollapseMeaning(a: string, b: string)
    ensures Collapse(a) == Collapse(b) <==> Words(a) == Words(b)
    ensures Collapse(Collapse(a)) == Collapse(a)
  {
    hide Words, Spaced;
    WordsAreWords(a);
    WordsAreWords(b);
    WordsOfSpaced(Words(a));
    WordsOfSpaced(Words(b));
  }

  /** White space anywhere before the end of a text ends a word. */
  lemma {:induction false} WordsSplit(a: string, c: char, b: string)
    requires IsFws(c)
    ensures Words(a + [c] + b) == Words(a) + Words(b)
    decreases |a|
  {
    hide Words, WordLength;
    NoWords();
    if a == "" {
      SkipSpace(c, b);
      assert a + [c] + b == [c] + b && [] + Words(b) == Words(b);
    } else if IsFws(a[0]) {
      var rest := a[1..];
      WordsSplit(rest, c, b);
      SkipSpace(a[0], rest);
      SkipSpace(a[0], rest + [c] + b);
      assert a == [a[0]] + rest && a + [c] + b == [a[0]] + (rest + [c] + b);
    } else {
      var n := WordLength(a);
      var w, rest := a[..n], a[n..];
      WordsSplit(rest, c, b);
      WordFirst(w, rest);
      WordFirst(w, rest + [c] + b);
      assert a == w + rest && a + [c] + b == w + (rest + [c] + b);
      assert [w] + (Words(rest) + Words(b)) == ([w] + Words(rest)) + Words(b);
    }
  }

  lemma {:induction false} SkipSpace(c: char, s: string)
    requires IsFws(c)
    ensures Words([c] + s) == Words(s)
  {
    assert ([c] + s)[1..] == s;
  }

  lemma {:induction false} WordsJoin(a: string, w: string)
    requires Word(w) && (a == "" || IsFws(a[|a| - 1]))
    ensures Words(a + w) == Words(a) + [w]
  {
    WordFirst(w, "");
    assert w + "" == w;
    if a == "" {
      assert a + w == w;
    } else {
      var front := a[..|a| - 1];
      WordsSplit(front, a[|a| - 1], w);
      WordsSplit(front, a[|a| - 1], "");
      assert front + [a[|a| - 1]] + w == a + w && front + [a[|a| - 1]] + "" == a;
    }
  }

  lemma {:induction false} SpacedPush(words: seq<string>, w: string)
    ensures Spaced(words + [w]) == if words == [] then w else Spaced(words) + " " + w
  {
    if words == [] {
      assert words + [w] == [w];
    } else {
      SpacedPush(words[1..], w);
      assert (words + [w])[1..] == words[1..] + [w];
    }
  }

  /** Where the word that ends a text begins. */
  lemma {:induction false} LastWord(s: string) returns (front: string, w: string)
    requires s != "" && !IsFws(s[|s| - 1])
    ensures s == front + w && Word(w) && (front == "" || IsFws(front[|front| - 1]))
  {
    if |s| == 1 || IsFws(s[|s| - 2]) {
      front, w := s[..|s| - 1], s[|s| - 1..];
    } else {
      var f, v := LastWord(s[..|s| - 1]);
      front, w := f, v + [s[|s| - 1]];
    }
  }

  /** One more character at the end of a text. */
  lemma {:induction false} CollapsePush(s: string, c: char)
    ensures Collapse(s + [c]) ==
            if IsFws(c) then Collapse(s)
            else if s == "" || IsFws(s[|s| - 1]) then Collapse(s) + (if Collapse(s) != "" then " " else "") + [c]
            else Collapse(s) + [c]
  {
    hide Words, Spaced;
    WordsAreWords(s);
    if IsFws(c) {
      WordsSplit(s, c, "");
      NoWords();
      assert s + [c] + "" == s + [c] && Words(s) + [] == Words(s);
    } else if s == "" || IsFws(s[|s| - 1]) {
      WordsJoin(s, [c]);
      SpacedPush(Words(s), [c]);
      SpacedEmpty(Words(s));
    } else {
      var front, w := LastWord(s);
      WordsJoin(front, w);
      WordsJoin(front, w + [c]);
      assert front + (w + [c]) == s + [c];
      SpacedPush(Words(front), w);
      SpacedPush(Words(front), w + [c]);
    }
  }

  lemma {:induction false} NoWords()
    ensures Words("") == []
  {
  }

  lemma {:induction false} SpacedEmpty(words: seq<string>)
    requires AllWords(words)
    ensures Spaced(words) == "" <==> words == []
  {
  }

  /** The loop with its pending-space flag leaves the words of the value, one space between them. */
  method CollapseValue(value: string) returns (collapsed: string)
    ensures collapsed == Spaced(Words(value))
  {
    hide Words, Spaced;
    collapsed := "";
    var inSpace := false;
    NoWords();
    SpacedEmpty([]);
    for n := 0 to |value|
      invariant collapsed == Collapse(value[..n])
      invariant inSpace <==> n > 0 && IsFws(value[n - 1])
    {
      var c := value[n];
      CollapsePush(value[..n], c);
      assert value[..n + 1] == value[..n] + [c];
      if IsFws(c) {
        inSpace := true;
      } else {
        if n == 0 {
          assert value[..n] == "";
        }
        if inSpace && collapsed != "" {
          collapsed := collapsed + " ";
        }
        inSpace := false;
        collapsed := collapsed + [c];
      }
    }
    assert value[..|value|] == value;
  }

  /** White space before the value does not change the relaxed form. */
  lemma {:induction false} CollapseLeading(c: char, value: string)
    requires IsFws(c)
    ensures Collapse([c] + value) == Collapse(value)
  {
    assert ([c] + value)[1..] == value;
  }

  /** The simple form keeps a field as it is: fields have the same form only if they have the same name, case and
      all, and the same value. */
  lemma {:induction false} SimpleMeaning(a: string, x: string, b: string, y: string)
    requires ':' !in a && ':' !in b
    ensures CanonHeader(Simple, a, x) == CanonHeader(Simple, b, y) <==> a == b && x == y
    ensures CanonLine(Simple, a, x) == a + ":" + x
  {
    var p, q := CanonHeader(Simple, a, x), CanonHeader(Simple, b, y);
    assert p == a + ":" + x + CRLF && q == b + ":" + y + CRLF;
    if p == q {
      assert p[|a|] == ':' && q[|b|] == ':';
      assert |a| == |b| && |x| == |y|;
      assert a == p[..|a|] && b == q[..|b|];
      assert x == p[|a| + 1..|a| + 1 + |x|] && y == q[|b| + 1..|b| + 1 + |y|];
    }
  }
}
