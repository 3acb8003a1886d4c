/** Line-ending normalisation of captured output (`bundle/capture.rs`). */
module Capture {
  import opened Text

  const CR := '\r'
  const LF := '\n'

  predicate PairAt(raw: Bytes, i: int) { 0 <= i && i + 1 < |raw| && raw[i] == CR && raw[i + 1] == LF }

  function Normalize(raw: Bytes): Bytes {
    if raw == [] then []
    else if PairAt(raw, 0) then [LF] + Normalize(raw[2..])
    else [raw[0]] + Normalize(raw[1..])
  }

  method NormalizeCapturedText(raw: Bytes) returns (out: Bytes)
    ensures out == Normalize(raw)
    ensures |out| + PairCount(raw) == |raw|
  {
    out := [];
    var i := 0;
    while i < |raw|
      invariant 0 <= i <= |raw|
      invariant Normalize(raw) == out + Normalize(raw[i..])
    {
      assert PairAt(raw[i..], 0) <==> PairAt(raw, i);
      if raw[i] == CR && i + 1 < |raw| && raw[i + 1] == LF {
        assert raw[i..][2..] == raw[i + 2..];
        out := out + [LF];
        i := i + 2;
      } else {
        out := out + [raw[i]];
        i := i + 1;
      }
    }
    LengthDrop(raw);
  }

  // ------------------------------------------------------------- what it does

  /** The number of positions that hold a CRLF pair. */
  function PairCount(raw: Bytes): nat {
    if raw == [] then 0 else (if PairAt(raw, 0) then 1 else 0) + PairCount(raw[1..])
  }

  function ToCrlf(text: Bytes): Bytes {
    if text == [] then [] else (if text[0] == LF then [CR, LF] else [text[0]]) + ToCrlf(text[1..])
  }

  lemma {:induction false} SomePair(raw: Bytes)
    ensures PairCount(raw) == 0 <==> forall i :: !PairAt(raw, i)
  {
    if raw != [] {
      SomePair(raw[1..]);
      forall i ensures PairAt(raw[1..], i) <==> i >= 0 && PairAt(raw, i + 1) {}
      if i :| PairAt(raw, i) { assert i == 0 || PairAt(raw[1..], i - 1); }
    }
  }

  /** One byte goes for each CRLF pair and nothing else does. */
  lemma {:induction false} LengthDrop(raw: Bytes)
    ensures |Normalize(raw)| + PairCount(raw) == |raw|
    decreases |raw|
  {
    if raw != [] {
      if PairAt(raw, 0) {
        LengthDrop(raw[2..]);
        assert !PairAt(raw[1..], 0) && raw[1..][1..] == raw[2..];
      } else {
        LengthDrop(raw[1..]);
      }
    }
  }

  /** Converting line endings to CRLF is undone, whatever the text holds. */
  lemma {:induction false} UndoesConversion(text: Bytes)
    ensures Normalize(ToCrlf(text)) == text
    decreases |text|
  {
    if text != [] {
      var rest := ToCrlf(text[1..]);
      UndoesConversion(text[1..]);
      assert text == [text[0]] + text[1..];
      if text[0] == LF {
        assert ToCrlf(text)[2..] == rest;
      } else {
        assert ToCrlf(text)[1..] == rest;
        ConvertedStart(text[1..]);
        assert !PairAt(ToCrlf(text), 0);
      }
    }
  }

  lemma ConvertedStart(text: Bytes)
    ensures ToCrlf(text) == [] || ToCrlf(text)[0] != LF
  {
  }

  lemma {:induction false} FixedExactly(raw: Bytes)
    ensures Normalize(raw) == raw <==> forall i :: !PairAt(raw, i)
  {
    LengthDrop(raw);
    SomePair(raw);
    if PairCount(raw) == 0 {
      NothingToDo(raw);
    }
  }

  lemma {:induction false} NothingToDo(raw: Bytes)
    requires forall i :: !PairAt(raw, i)
    ensures Normalize(raw) == raw
    decreases |raw|
  {
    if raw != [] {
      forall i ensures !PairAt(raw[1..], i) {
        if PairAt(raw[1..], i) { assert PairAt(raw, i + 1); }
      }
      NothingToDo(raw[1..]);
      assert raw == [raw[0]] + raw[1..];
    }
  }

  /** The same text captured with LF and with CRLF line endings gives the same
      bytes exactly when it holds no CRLF of its own. */
  lemma PlatformIndependent(text: Bytes)
    ensures Normalize(ToCrlf(text)) == Normalize(text) <==> forall i :: !PairAt(text, i)
  {
    UndoesConversion(text);
    FixedExactly(text);
  }

  /** Normalisation distributes over concatenation exactly when the cut does not
      split a pair. */
  lemma {:induction false} DistributesExactly(a: Bytes, b: Bytes)
    ensures Normalize(a + b) == Normalize(a) + Normalize(b) <==> !(a != [] && b != [] && a[|a| - 1] == CR && b[0] == LF)
  {
    if a != [] && b != [] && a[|a| - 1] == CR && b[0] == LF {
      SplitPairCounts(a, b);
      LengthDrop(a);
      LengthDrop(b);
      LengthDrop(a + b);
    } else {
      Distributes(a, b);
    }
  }

  lemma {:induction false} SplitPairCounts(a: Bytes, b: Bytes)
    requires a != [] && b != [] && a[|a| - 1] == CR && b[0] == LF
    ensures PairCount(a + b) == PairCount(a) + PairCount(b) + 1
  {
    assert (a + b)[1..] == a[1..] + b;
    if |a| == 1 {
      assert a[1..] + b == b;
    } else {
      SplitPairCounts(a[1..], b);
      assert PairAt(a + b, 0) <==> PairAt(a, 0);
    }
  }

  lemma {:induction false} Distributes(a: Bytes, b: Bytes)
    requires !(a != [] && b != [] && a[|a| - 1] == CR && b[0] == LF)
    ensures Normalize(a + b) == Normalize(a) + Normalize(b)
    decreases |a|
  {
    if a == [] {
      assert a + b == b;
    } else {
      var k := if PairAt(a, 0) then 2 else 1;
      assert PairAt(a + b, 0) <==> PairAt(a, 0);
      assert (a + b)[k..] == a[k..] + b;
      Distributes(a[k..], b);
    }
  }

  // ------------------------------------------------------------- idempotence

  /** `\r\r\n` at position `i`. */
  predicate TripleAt(raw: Bytes, i: int) { 0 <= i < |raw| && raw[i] == CR && PairAt(raw, i + 1) }

  ghost predicate HasPair(raw: Bytes) { exists i :: PairAt(raw, i) }

  ghost predicate HasTriple(raw: Bytes) { exists i :: TripleAt(raw, i) }

  lemma HasPairCons(c: char, rest: Bytes)
    ensures HasPair([c] + rest) <==> (c == CR && rest != [] && rest[0] == LF) || HasPair(rest)
  {
    var raw := [c] + rest;
    if c == CR && rest != [] && rest[0] == LF { assert PairAt(raw, 0); }
    if i :| PairAt(rest, i) { assert PairAt(raw, i + 1); }
    if i :| PairAt(raw, i) { assert i == 0 || PairAt(rest, i - 1); }
  }

  lemma HasTripleTail(raw: Bytes, k: nat)
    requires k <= |raw| && forall i :: 0 <= i < k ==> !TripleAt(raw, i)
    ensures HasTriple(raw) <==> HasTriple(raw[k..])
  {
    if i :| TripleAt(raw[k..], i) { assert TripleAt(raw, i + k); }
    if i :| TripleAt(raw, i) { assert TripleAt(raw[k..], i - k); }
  }

  lemma {:induction false} PairLeft(raw: Bytes)
    ensures HasPair(Normalize(raw)) <==> HasTriple(raw)
    decreases |raw|
  {
    if raw != [] {
      var k := if PairAt(raw, 0) then 2 else 1;
      var rest := raw[k..];
      PairLeft(rest);
      HasPairCons(if k == 2 then LF else raw[0], Normalize(rest));
      if TripleAt(raw, 0) {
        assert PairAt(rest, 0);
        assert Normalize(rest)[0] == LF;
      } else {
        HasTripleTail(raw, k);
        assert k == 1 && rest != [] ==> (PairAt(rest, 0) <==> PairAt(raw, 1));
      }
    }
  }

  /** A second pass changes nothing exactly when the capture never holds
      `\r\r\n`, whose first pass leaves a new CRLF behind. */
  lemma IdempotentExactly(raw: Bytes)
    ensures Normalize(Normalize(raw)) == Normalize(raw) <==> forall i :: !TripleAt(raw, i)
  {
    PairLeft(raw);
    FixedExactly(Normalize(raw));
  }
}
