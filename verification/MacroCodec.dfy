// The NUL-separated macro buffer.  A macro is the UTF-8 encoding of a Rust
// string, so every byte sequence of type `Text` is valid UTF-8.
module MacroCodec {
  import opened Wrappers
  import opened Bytes
  import opened Utf8

  datatype CodecError = TooManyMacros | MacroTooLong(index: nat) | NotUtf8

  type Text = s: seq<u8> | ValidUtf8(s) witness []

  function FirstNul(b: seq<u8>): (i: nat)
    ensures i <= |b| && 0 !in b[..i] && (i < |b| ==> b[i] == 0)
  {
    if b == [] || b[0] == 0 then 0 else
      var i := 1 + FirstNul(b[1..]);
      assert b[..i] == [b[0]] + b[1..][..i - 1];
      i
  }

  function SplitNul(b: seq<u8>): (pieces: seq<seq<u8>>)
    ensures |pieces| > 0
    decreases |b|
  {
    var i := FirstNul(b);
    if i == |b| then [b] else [b[..i]] + SplitNul(b[i + 1..])
  }

  function Take<T>(s: seq<T>, n: nat): seq<T>
  {
    if n <= |s| then s[..n] else s
  }

  function DropTrailingEmpty(macros: seq<seq<u8>>): (kept: seq<seq<u8>>)
    ensures kept <= macros
    ensures kept != [] ==> kept[|kept| - 1] != []
    ensures forall i :: |kept| <= i < |macros| ==> macros[i] == []
  {
    if macros != [] && macros[|macros| - 1] == [] then DropTrailingEmpty(macros[..|macros| - 1]) else macros
  }

  predicate AllUtf8(pieces: seq<seq<u8>>)
  {
    forall i :: 0 <= i < |pieces| ==> ValidUtf8(pieces[i])
  }

  function DecodeMacroBuffer(buffer: seq<u8>, capacity: u8): Result<seq<seq<u8>>, CodecError>
  {
    var pieces := Take(SplitNul(buffer), capacity);
    if AllUtf8(pieces) then Ok(DropTrailingEmpty(pieces)) else Err(NotUtf8)
  }

  function Terminated(macros: seq<seq<u8>>): seq<u8>
  {
    if macros == [] then [] else macros[0] + [0] + Terminated(macros[1..])
  }

  ghost predicate NulFree(macros: seq<seq<u8>>)
  {
    forall i :: 0 <= i < |macros| ==> 0 !in macros[i]
  }

  ghost predicate AllZero(b: seq<u8>)
  {
    forall i :: 0 <= i < |b| ==> b[i] == 0
  }

  // The bytes after the n-th NUL, if there are that many.
  function AfterNul(b: seq<u8>, n: nat): seq<u8>
    decreases |b|, n
  {
    if n == 0 then b
    else if FirstNul(b) == |b| then []
    else AfterNul(b[FirstNul(b) + 1..], n - 1)
  }

  // What the encoder promises: the macros, each closed by a NUL, then zeros;
  // or the first macro that does not fit.
  ghost predicate Encodes(macros: seq<seq<u8>>, capacity: u8, size: nat, outcome: Result<seq<u8>, CodecError>)
  {
    if |macros| > capacity then outcome == Err(TooManyMacros)
    else if |Terminated(macros)| <= size then
      outcome == Ok(Terminated(macros) + Zeros(size - |Terminated(macros)|))
    else
      && outcome.Err? && outcome.error.MacroTooLong? && outcome.error.index < |macros|
      && |Terminated(macros[..outcome.error.index])| <= size < |Terminated(macros[..outcome.error.index + 1])|
  }

  lemma {:induction false} TerminatedAppend(a: seq<seq<u8>>, b: seq<seq<u8>>)
    ensures Terminated(a + b) == Terminated(a) + Terminated(b)
  {
    if a == [] {
      assert a + b == b;
    } else {
      assert (a + b)[1..] == a[1..] + b;
      TerminatedAppend(a[1..], b);
    }
  }

  lemma TerminatedGrows(macros: seq<seq<u8>>, i: nat)
    requires i < |macros|
    ensures Terminated(macros[..i + 1]) == Terminated(macros[..i]) + macros[i] + [0]
    ensures |Terminated(macros[..i + 1])| <= |Terminated(macros)|
  {
    assert macros[..i + 1] == macros[..i] + [macros[i]];
    TerminatedAppend(macros[..i], [macros[i]]);
    assert Terminated([macros[i]]) == macros[i] + [0];
    assert macros == macros[..i + 1] + macros[i + 1..];
    TerminatedAppend(macros[..i + 1], macros[i + 1..]);
  }

  method DesiredMacroBuffer(macros: seq<Text>, capacity: u8, size: nat) returns (outcome: Result<seq<u8>, CodecError>)
    ensures Encodes(macros, capacity, size, outcome)
  {
    if |macros| > capacity {
      return Err(TooManyMacros);
    }
    var output := new u8[size](_ => 0);
    var cursor := 0;
    assert output[..] == Terminated(macros[..0]) + Zeros(size);
    for index := 0 to |macros|
      invariant cursor == |Terminated(macros[..index])| <= size
      invariant output[..] == Terminated(macros[..index]) + Zeros(size - cursor)
    {
      var value := macros[index];
      var required := |value| + 1;
      TerminatedGrows(macros, index);
      if cursor + required > output.Length {
        return Err(MacroTooLong(index));
      }
      ghost var before := output[..];
      forall j | 0 <= j < |value| {
        output[cursor + j] := value[j];
      }
      assert forall j :: 0 <= j < size ==>
        output[j] == if cursor <= j < cursor + |value| then value[j - cursor] else before[j];
      cursor := cursor + required;
    }
    assert macros[..|macros|] == macros;
    return Ok(output[..]);
  }

  // ----- decoding what was encoded -----

  lemma {:induction false} FirstNulAt(piece: seq<u8>, rest: seq<u8>)
    requires 0 !in piece
    ensures FirstNul(piece + [0] + rest) == |piece|
    decreases |piece|
  {
    var b := piece + [0] + rest;
    if piece != [] {
      assert piece[0] in piece;
      assert b[1..] == piece[1..] + [0] + rest;
      FirstNulAt(piece[1..], rest);
    }
  }

  function Empties(n: nat): seq<seq<u8>> { seq(n, i => []) }

  lemma {:induction false} SplitZeros(n: nat)
    ensures SplitNul(Zeros(n)) == Empties(n + 1)
  {
    if n > 0 {
      SplitZeros(n - 1);
      assert FirstNul(Zeros(n)) == 0;
      assert Zeros(n)[1..] == Zeros(n - 1);
      assert Zeros(n)[..0] == [];
      assert Empties(n + 1) == [[]] + Empties(n);
    }
  }

  lemma SplitCons(piece: seq<u8>, rest: seq<u8>)
    requires 0 !in piece
    ensures SplitNul(piece + [0] + rest) == [piece] + SplitNul(rest)
  {
    FirstNulAt(piece, rest);
    assert (piece + [0] + rest)[..|piece|] == piece;
    assert (piece + [0] + rest)[|piece| + 1..] == rest;
  }

  lemma FirstAndRest<T>(s: seq<T>, t: seq<T>)
    requires s != []
    ensures [s[0]] + (s[1..] + t) == s + t
  {
  }

  lemma {:induction false} SplitTerminated(macros: seq<seq<u8>>, n: nat)
    requires NulFree(macros)
    ensures SplitNul(Terminated(macros) + Zeros(n)) == macros + Empties(n + 1)
  {
    if macros == [] {
      assert [] + Zeros(n) == Zeros(n);
      SplitZeros(n);
    } else {
      var rest := Terminated(macros[1..]) + Zeros(n);
      assert Terminated(macros) + Zeros(n) == macros[0] + [0] + rest;
      SplitCons(macros[0], rest);
      SplitTerminated(macros[1..], n);
      FirstAndRest(macros, Empties(n + 1));
    }
  }

  lemma {:induction false} DropAfterAppend(macros: seq<seq<u8>>, n: nat)
    ensures DropTrailingEmpty(macros + Empties(n)) == DropTrailingEmpty(macros)
  {
    if n == 0 {
      assert macros + Empties(0) == macros;
    } else {
      DropAfterAppend(macros, n - 1);
      assert (macros + Empties(n))[..|macros| + n - 1] == macros + Empties(n - 1);
    }
  }

  lemma {:induction false} SplitIsNulFree(b: seq<u8>)
    ensures NulFree(SplitNul(b))
    decreases |b|
  {
    var i := FirstNul(b);
    if i < |b| {
      SplitIsNulFree(b[i + 1..]);
    } else {
      assert b[..i] == b;
    }
  }

  // Decoding an encoded list gives it back, up to empty macros at the end,
  // exactly when no macro contains a NUL.
  lemma DecodeEncoded(macros: seq<Text>, capacity: u8, size: nat, buffer: seq<u8>)
    requires Encodes(macros, capacity, size, Ok(buffer))
    ensures DecodeMacroBuffer(buffer, capacity) == Ok(DropTrailingEmpty(macros)) <==> NulFree(macros)
  {
    if NulFree(macros) {
      var n := size - |Terminated(macros)|;
      SplitTerminated(macros, n);
      var pieces := Take(SplitNul(buffer), capacity);
      var k := |pieces| - |macros|;
      assert pieces == macros + Empties(k);
      DropAfterAppend(macros, k);
    }
    if DecodeMacroBuffer(buffer, capacity) == Ok(DropTrailingEmpty(macros)) {
      SplitIsNulFree(buffer);
      var kept := DropTrailingEmpty(macros);
      forall i | 0 <= i < |macros| ensures 0 !in macros[i] {
        if i < |kept| { assert kept[i] == SplitNul(buffer)[i]; }
      }
    }
  }

  // Encoding fails exactly when there are too many macros or too many bytes.
  lemma EncodingFailsExactly(macros: seq<Text>, capacity: u8, size: nat, outcome: Result<seq<u8>, CodecError>)
    requires Encodes(macros, capacity, size, outcome)
    ensures outcome.Err? <==> |macros| > capacity || TotalLength(macros) > size
  {
    TerminatedLength(macros);
  }

  function TotalLength(macros: seq<seq<u8>>): nat
  {
    if macros == [] then 0 else |macros[0]| + 1 + TotalLength(macros[1..])
  }

  lemma {:induction false} TerminatedLength(macros: seq<seq<u8>>)
    ensures |Terminated(macros)| == TotalLength(macros)
  {
    if macros != [] { TerminatedLength(macros[1..]); }
  }

  // ----- encoding what was decoded -----

  lemma {:induction false} DropCons(first: seq<u8>, rest: seq<seq<u8>>)
    ensures DropTrailingEmpty([first] + rest)
         == if DropTrailingEmpty(rest) == [] && first == [] then [] else [first] + DropTrailingEmpty(rest)
    decreases |rest|
  {
    if rest == [] {
      assert [first] + rest == [first];
      assert [first][..0] == [];
    } else if rest[|rest| - 1] == [] {
      DropCons(first, rest[..|rest| - 1]);
      assert ([first] + rest)[..|rest|] == [first] + rest[..|rest| - 1];
    }
  }

  // The macros kept when one piece is put in front of the others.
  lemma KeptCons(first: seq<u8>, rest: seq<seq<u8>>, padding: nat) returns (more: nat)
    ensures first + [0] + (Terminated(DropTrailingEmpty(rest)) + Zeros(padding))
         == Terminated(DropTrailingEmpty([first] + rest)) + Zeros(more)
  {
    var kept := DropTrailingEmpty(rest);
    DropCons(first, rest);
    if kept == [] && first == [] {
      more := padding + 1;
      assert first + [0] + ([] + Zeros(padding)) == [] + Zeros(more);
    } else {
      more := padding;
      assert ([first] + kept)[1..] == kept;
      assert first + [0] + (Terminated(kept) + Zeros(padding)) == first + [0] + Terminated(kept) + Zeros(padding);
    }
  }

  // `b` is the macros decoded from its first n pieces, plus padding.
  ghost predicate Padded(b: seq<u8>, n: nat, padding: nat)
  {
    b == Terminated(DropTrailingEmpty(Take(SplitNul(b), n))) + Zeros(padding)
  }

  lemma TakeCons<T>(x: T, s: seq<T>, n: nat)
    requires n > 0
    ensures Take([x] + s, n) == [x] + Take(s, n - 1)
  {
  }

  lemma ConsPadded(first: seq<u8>, rest: seq<u8>, n: nat, padding: nat) returns (more: nat)
    requires n > 0 && 0 !in first
    requires Padded(rest, n - 1, padding)
    ensures Padded(first + [0] + rest, n, more)
  {
    var b := first + [0] + rest;
    FirstNulAt(first, rest);
    assert b[..|first|] == first && b[|first| + 1..] == rest;
    TakeCons(first, SplitNul(rest), n);
    more := KeptCons(first, Take(SplitNul(rest), n - 1), padding);
  }

  lemma Rejoin(b: seq<u8>, i: nat)
    requires i < |b| && b[i] == 0
    ensures b == b[..i] + [0] + b[i + 1..]
  {
  }

  // A buffer whose bytes end in a NUL and are zero after the n-th one.
  lemma {:induction false} WellFormedBuffer(b: seq<u8>, n: nat) returns (padding: nat)
    requires b == [] || b[|b| - 1] == 0
    requires AllZero(AfterNul(b, n))
    ensures Padded(b, n, padding)
    decreases |b|, n
  {
    if n == 0 {
      padding := |b|;
    } else if b == [] {
      padding := 0;
    } else {
      var first, rest := b[..FirstNul(b)], b[FirstNul(b) + 1..];
      padding := WellFormedBuffer(rest, n - 1);
      padding := ConsPadded(first, rest, n, padding);
      Rejoin(b, FirstNul(b));
    }
  }

  lemma {:induction false} ZeroTail(n: nat, k: nat)
    ensures AllZero(AfterNul(Zeros(n), k))
    decreases n
  {
    if k > 0 && n > 0 {
      assert Zeros(n)[1..] == Zeros(n - 1);
      ZeroTail(n - 1, k - 1);
    }
  }

  lemma {:induction false} TailAfterMacros(macros: seq<seq<u8>>, n: nat, k: nat)
    requires NulFree(macros) && |macros| <= k
    ensures AllZero(AfterNul(Terminated(macros) + Zeros(n), k))
    decreases |macros|
  {
    if macros == [] {
      assert [] + Zeros(n) == Zeros(n);
      ZeroTail(n, k);
    } else {
      var rest := Terminated(macros[1..]) + Zeros(n);
      var b := macros[0] + [0] + rest;
      assert Terminated(macros) + Zeros(n) == b;
      FirstNulAt(macros[0], rest);
      TailAfterMacros(macros[1..], n, k - 1);
      assert b[|macros[0]| + 1..] == rest;
    }
  }

  lemma {:induction false} EndsInNul(macros: seq<seq<u8>>, n: nat)
    ensures var b := Terminated(macros) + Zeros(n); b == [] || b[|b| - 1] == 0
  {
    if macros != [] {
      EndsInNul(macros[1..], n);
      var rest := Terminated(macros[1..]) + Zeros(n);
      assert Terminated(macros) + Zeros(n) == macros[0] + [0] + rest;
    }
  }

  // Encoding a decoded buffer reproduces it exactly when it is empty or ends
  // in a NUL, and holds only zeros after the capacity-th NUL.
  lemma EncodeDecoded(buffer: seq<u8>, capacity: u8, macros: seq<seq<u8>>)
    requires DecodeMacroBuffer(buffer, capacity) == Ok(macros)
    ensures Encodes(macros, capacity, |buffer|, Ok(buffer))
       <==> (buffer == [] || buffer[|buffer| - 1] == 0) && AllZero(AfterNul(buffer, capacity))
  {
    if (buffer == [] || buffer[|buffer| - 1] == 0) && AllZero(AfterNul(buffer, capacity)) {
      WellFormedEncodes(buffer, capacity, macros);
    }
    if Encodes(macros, capacity, |buffer|, Ok(buffer)) {
      EncodedIsWellFormed(buffer, capacity, macros);
    }
  }

  lemma WellFormedEncodes(buffer: seq<u8>, capacity: u8, macros: seq<seq<u8>>)
    requires DecodeMacroBuffer(buffer, capacity) == Ok(macros)
    requires (buffer == [] || buffer[|buffer| - 1] == 0) && AllZero(AfterNul(buffer, capacity))
    ensures Encodes(macros, capacity, |buffer|, Ok(buffer))
  {
    var padding := WellFormedBuffer(buffer, capacity);
    assert |buffer| == |Terminated(macros)| + padding;
  }

  lemma EncodedIsWellFormed(buffer: seq<u8>, capacity: u8, macros: seq<seq<u8>>)
    requires DecodeMacroBuffer(buffer, capacity) == Ok(macros)
    requires Encodes(macros, capacity, |buffer|, Ok(buffer))
    ensures (buffer == [] || buffer[|buffer| - 1] == 0) && AllZero(AfterNul(buffer, capacity))
  {
    SplitIsNulFree(buffer);
    TailAfterMacros(macros, |buffer| - |Terminated(macros)|, capacity);
    EndsInNul(macros, |buffer| - |Terminated(macros)|);
  }

  // ----- which buffers decode -----

  // Pieces separated by NUL bytes.
  function JoinNul(pieces: seq<seq<u8>>): seq<u8>
  {
    if pieces == [] then [] else if |pieces| == 1 then pieces[0] else pieces[0] + [0] + JoinNul(pieces[1..])
  }

  lemma {:induction false} SplitJoins(b: seq<u8>)
    ensures JoinNul(SplitNul(b)) == b && NulFree(SplitNul(b))
    decreases |b|
  {
    SplitIsNulFree(b);
    var i := FirstNul(b);
    if i < |b| {
      SplitJoins(b[i + 1..]);
      Rejoin(b, i);
    }
  }

  lemma {:induction false} JoinSplits(pieces: seq<seq<u8>>)
    requires pieces != [] && NulFree(pieces)
    ensures SplitNul(JoinNul(pieces)) == pieces
    decreases |pieces|
  {
    if |pieces| == 1 {
      var b := pieces[0];
      assert FirstNul(b) == |b|;
    } else {
      JoinSplits(pieces[1..]);
      SplitCons(pieces[0], JoinNul(pieces[1..]));
    }
  }

  // Decoding looks at the first `capacity` pieces of a buffer alone: it fails
  // exactly if one of them is no UTF-8, and else drops trailing empty ones.
  lemma DecodeExactly(pieces: seq<seq<u8>>, capacity: u8)
    requires pieces != [] && NulFree(pieces)
    ensures DecodeMacroBuffer(JoinNul(pieces), capacity).Err? <==>
      exists i :: 0 <= i < |pieces| && i < capacity && !ValidUtf8(pieces[i])
    ensures DecodeMacroBuffer(JoinNul(pieces), capacity).Ok? ==>
      DecodeMacroBuffer(JoinNul(pieces), capacity).value == DropTrailingEmpty(Take(pieces, capacity))
  {
    JoinSplits(pieces);
    var taken := Take(pieces, capacity);
    if !AllUtf8(taken) {
      var i :| 0 <= i < |taken| && !ValidUtf8(taken[i]);
      assert pieces[i] == taken[i];
    }
    if exists i :: 0 <= i < |pieces| && i < capacity && !ValidUtf8(pieces[i]) {
      var i :| 0 <= i < |pieces| && i < capacity && !ValidUtf8(pieces[i]);
      assert taken[i] == pieces[i];
    }
  }
}
