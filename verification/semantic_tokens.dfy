/** The semantic-token checker of the test suite. A token stream is the
    relative integer encoding of "Integer Encoding for Tokens" in the
    "Semantic Tokens" section of the Language Server Protocol 3.16: five
    integers per token (line delta, start delta, length, token type index,
    modifier bits), where the start delta is relative to the previous token's
    start when both are on one line and absolute otherwise. The helper walks
    the stream token by token, rebuilding absolute positions, optionally
    skipping tokens whose type is not in a filter, and fails as the JUnit
    assertions do. */
module SemanticTokens {
  import opened Wrappers
  import opened JavaInt
  import ModifierBits

  datatype Legend = Legend(tokenTypes: seq<string>, tokenModifiers: seq<string>)

  datatype Position = Position(line: int, column: int)

  /** A token with its absolute start. */
  datatype Token = Token(at: Position, length: int, typeIndex: int, modifiers: int)

  /** Why a check fails. */
  datatype Failure =
    | NotWholeTokens       // the data is not five integers per token
    | TokenMissing         // no further token (matching the filter)
    | NegativeDeltaLine
    | NegativeDeltaColumn
    | EmptyToken
    | TypeIndexOutOfRange(typeIndex: int)
    | WrongType(found: string)
    | WrongModifier(modifier: string)
    | TokensRemain        // unfiltered check ended before the data did
    | FilteredTokenRemains(tokenType: string)

  const Origin := Position(0, 0)

  predicate WholeTokens(data: seq<int>) {
    |data| % 5 == 0
  }

  /** The data is a list of Java `int`s. */
  predicate IntData(data: seq<int>) {
    forall i :: 0 <= i < |data| ==> InRange(data[i])
  }

  /** The start of the next token, from the previous start and the two deltas. */
  function Advance(p: Position, deltaLine: int, deltaColumn: int): (q: Position)
    ensures deltaLine == 0 ==> q == Position(p.line, p.column + deltaColumn)
    ensures deltaLine != 0 ==> q == Position(p.line + deltaLine, deltaColumn)
  {
    if deltaLine == 0 then p.(column := p.column + deltaColumn)
    else Position(p.line + deltaLine, deltaColumn)
  }

  /** The start of token `k - 1` after `k` tokens, `Origin` before any. */
  function PositionAfter(data: seq<int>, k: nat): Position
    requires WholeTokens(data) && k <= |data| / 5
  {
    if k == 0 then Origin
    else Advance(PositionAfter(data, k - 1), data[5 * (k - 1)], data[5 * (k - 1) + 1])
  }

  /** Token `k` of the stream, decoded. */
  function TokenAt(data: seq<int>, k: nat): Token
    requires WholeTokens(data) && k < |data| / 5
  {
    Token(PositionAfter(data, k + 1), data[5 * k + 2], data[5 * k + 3], data[5 * k + 4])
  }

  /** The whole stream, decoded. */
  function Tokens(data: seq<int>): (ts: seq<Token>)
    requires WholeTokens(data)
    ensures |ts| == |data| / 5
  {
    seq(|data| / 5, k requires 0 <= k < |data| / 5 => TokenAt(data, k))
  }

  /** The five integers that encode token `t` after a token starting at `prev`. */
  function Deltas(prev: Position, t: Token): (d: seq<int>)
    ensures |d| == 5
  {
    var deltaLine := t.at.line - prev.line;
    var deltaColumn := if deltaLine == 0 then t.at.column - prev.column else t.at.column;
    [deltaLine, deltaColumn, t.length, t.typeIndex, t.modifiers]
  }

  /** The start the encoding of token `k` is relative to. */
  function PreviousStart(ts: seq<Token>, k: nat): Position
    requires k <= |ts|
  {
    if k == 0 then Origin else ts[k - 1].at
  }

  /** The relative encoding of a list of absolute tokens. */
  function Encode(ts: seq<Token>): (data: seq<int>)
    ensures |data| == 5 * |ts| && WholeTokens(data) && |data| / 5 == |ts|
    decreases |ts|
  {
    if ts == [] then []
    else Encode(ts[..|ts| - 1]) + Deltas(PreviousStart(ts, |ts| - 1), ts[|ts| - 1])
  }

  /** Field `j` of token `k` in an encoding. */
  lemma {:induction false} EncodedField(ts: seq<Token>, k: nat, j: nat)
    requires k < |ts| && j < 5
    ensures Encode(ts)[5 * k + j] == Deltas(PreviousStart(ts, k), ts[k])[j]
    decreases |ts|
  {
    var front := ts[..|ts| - 1];
    if k < |ts| - 1 {
      EncodedField(front, k, j);
      assert front[k] == ts[k];
      assert PreviousStart(front, k) == PreviousStart(ts, k);
    }
  }

  /** Lexicographic order on positions. */
  predicate NotAfter(p: Position, q: Position) {
    p.line < q.line || (p.line == q.line && p.column <= q.column)
  }

  /** What the helper asserts of every token it reads. */
  predicate WellFormedToken(data: seq<int>, k: nat)
    requires WholeTokens(data) && k < |data| / 5
  {
    data[5 * k] >= 0 && data[5 * k + 1] >= 0 && data[5 * k + 2] > 0
  }

  /** The helper's bound `5 * i < |data|` counts whole tokens. */
  lemma TokenBound(data: seq<int>, i: nat)
    requires WholeTokens(data)
    ensures 5 * i < |data| <==> i < |data| / 5
    ensures i < |data| / 5 ==> 5 * i + 4 < |data|
  {
    DivModUnique(|data|, 5, |data| / 5, 0);
  }

  /** The type index of token `k`. */
  function TypeIndexOf(data: seq<int>, k: nat): int
    requires WholeTokens(data) && k < |data| / 5
  {
    data[5 * k + 3]
  }

  // ---------------------------------------------------------------------
  // Decoding laws

  /** The line of the start after `k` tokens is the sum of the first `k` line deltas. */
  function LineDeltaSum(data: seq<int>, k: nat): int
    requires k <= |data| / 5
  {
    if k == 0 then 0 else LineDeltaSum(data, k - 1) + data[5 * (k - 1)]
  }

  lemma {:induction false} LineIsDeltaSum(data: seq<int>, k: nat)
    requires WholeTokens(data) && k <= |data| / 5
    ensures PositionAfter(data, k).line == LineDeltaSum(data, k)
  {
    if k > 0 {
      LineIsDeltaSum(data, k - 1);
    }
  }

  /** With non-negative deltas, positions never move backwards. */
  lemma {:induction false} PositionsOrdered(data: seq<int>, j: nat, k: nat)
    requires WholeTokens(data) && j <= k <= |data| / 5
    requires forall i :: j <= i < k ==> data[5 * i] >= 0 && data[5 * i + 1] >= 0
    ensures NotAfter(PositionAfter(data, j), PositionAfter(data, k))
    decreases k - j
  {
    if j < k {
      PositionsOrdered(data, j, k - 1);
    }
  }

  /** The start after `k` tokens of an encoding is the start of its token `k - 1`. */
  lemma {:induction false} DecodedPosition(ts: seq<Token>, k: nat)
    requires k <= |ts|
    ensures PositionAfter(Encode(ts), k) == PreviousStart(ts, k)
  {
    if k > 0 {
      var data := Encode(ts);
      DecodedPosition(ts, k - 1);
      EncodedField(ts, k - 1, 0);
      EncodedField(ts, k - 1, 1);
      var prev, t := PreviousStart(ts, k - 1), ts[k - 1];
      assert PositionAfter(data, k) == Advance(prev, data[5 * (k - 1)], data[5 * (k - 1) + 1]);
      assert data[5 * (k - 1)] == t.at.line - prev.line;
    }
  }

  /** Token `k` of an encoding decodes to the token that was encoded. */
  lemma DecodedToken(ts: seq<Token>, k: nat)
    requires k < |ts|
    ensures TokenAt(Encode(ts), k) == ts[k]
  {
    DecodedPosition(ts, k + 1);
    EncodedField(ts, k, 2);
    EncodedField(ts, k, 3);
    EncodedField(ts, k, 4);
  }

  /** Decoding an encoding recovers every token. */
  lemma DecodeOfEncode(ts: seq<Token>)
    ensures Tokens(Encode(ts)) == ts
  {
    forall k | 0 <= k < |ts|
      ensures Tokens(Encode(ts))[k] == ts[k]
    {
      DecodedToken(ts, k);
    }
  }

  /** Encoding what was decoded recovers the data. */
  lemma EncodeOfDecode(data: seq<int>)
    requires WholeTokens(data)
    ensures Encode(Tokens(data)) == data
  {
    var ts := Tokens(data);
    forall i | 0 <= i < |data|
      ensures Encode(ts)[i] == data[i]
    {
      var k, j := i / 5, i % 5;
      assert i == 5 * k + j;
      EncodedField(ts, k, j);
      assert PreviousStart(ts, k) == PositionAfter(data, k);
    }
  }

  // ---------------------------------------------------------------------
  // The assertion helper

  /** The helper's state: the data, the filter, the number of tokens read
      (`currentIndex`) and the start of the last token read. */
  datatype Helper = Helper(data: seq<int>, filter: seq<string>, index: nat, at: Position)

  /** The helper reads whole tokens, never past the end, and its position is
      the decoded start of the last token it read. */
  predicate Valid(h: Helper) {
    && WholeTokens(h.data)
    && IntData(h.data)
    && h.index <= |h.data| / 5
    && h.at == PositionAfter(h.data, h.index)
  }

  /** A token the filter lets through: every token when the filter is empty. */
  predicate Selected(legend: Legend, filter: seq<string>, typeIndex: int) {
    filter == [] || (0 <= typeIndex < |legend.tokenTypes| && legend.tokenTypes[typeIndex] in filter)
  }

  /** A token the filter skips. */
  predicate Skipped(legend: Legend, filter: seq<string>, typeIndex: int) {
    filter != [] && 0 <= typeIndex < |legend.tokenTypes| && legend.tokenTypes[typeIndex] !in filter
  }

  /** Tokens `from` up to `to` are well formed and the filter skips them. */
  predicate SkippedRange(legend: Legend, filter: seq<string>, data: seq<int>, from: nat, to: nat)
    requires WholeTokens(data) && to <= |data| / 5
    decreases if from < to then to - from else 0
  {
    from < to ==>
      && WellFormedToken(data, from) && Skipped(legend, filter, TypeIndexOf(data, from))
      && SkippedRange(legend, filter, data, from + 1, to)
  }

  /** `SkippedRange` holds exactly when every token in the range is well
      formed and skipped. */
  lemma {:induction false} SkippedRangeEach(legend: Legend, filter: seq<string>, data: seq<int>, from: nat, to: nat)
    requires WholeTokens(data) && to <= |data| / 5
    ensures SkippedRange(legend, filter, data, from, to) <==>
              forall k :: from <= k < to ==> WellFormedToken(data, k) && Skipped(legend, filter, TypeIndexOf(data, k))
    decreases if from < to then to - from else 0
  {
    if from < to {
      SkippedRangeEach(legend, filter, data, from + 1, to);
    }
  }

  /** `beginAssertion`: the data must hold whole tokens. */
  function BeginAssertion(data: seq<int>, filter: seq<string>): (r: Result<Helper, Failure>)
    requires IntData(data)
    ensures r.Success? <==> WholeTokens(data)
    ensures r.Success? ==> Valid(r.value) && r.value == Helper(data, filter, 0, Origin)
  {
    if |data| % 5 == 0 then Success(Helper(data, filter, 0, Origin)) else Failure(NotWholeTokens)
  }

  /** The first legend modifier whose presence in `encoded` disagrees with
      the expected modifiers, looking from index `i` on. */
  function ModifierMismatch(legend: Legend, encoded: Int32, expected: seq<string>, i: nat): (m: Option<nat>)
    requires i <= |legend.tokenModifiers|
    ensures m.None? <==> forall j :: i <= j < |legend.tokenModifiers| ==>
                           (ModifierBits.IsEncoded(encoded, j) <==> legend.tokenModifiers[j] in expected)
    ensures m.Some? ==> (&& i <= m.value < |legend.tokenModifiers|
                         && (ModifierBits.IsEncoded(encoded, m.value) <==> legend.tokenModifiers[m.value] !in expected))
    ensures m.Some? ==> forall j :: i <= j < m.value ==>
                          (ModifierBits.IsEncoded(encoded, j) <==> legend.tokenModifiers[j] in expected)
    decreases |legend.tokenModifiers| - i
  {
    if i == |legend.tokenModifiers| then None
    else if ModifierBits.IsEncoded(encoded, i) != (legend.tokenModifiers[i] in expected) then Some(i)
    else ModifierMismatch(legend, encoded, expected, i + 1)
  }

  /** Reading one token: its deltas and length are checked, then the
      position moves to its start and the index past it. */
  function ReadToken(h: Helper): (r: Result<Helper, Failure>)
    requires Valid(h) && h.index < |h.data| / 5
    ensures r.Success? <==> WellFormedToken(h.data, h.index)
    ensures r.Success? ==> Valid(r.value) && r.value == h.(index := h.index + 1, at := PositionAfter(h.data, h.index + 1))
  {
    var k := h.index;
    var deltaLine, deltaColumn, length := h.data[5 * k], h.data[5 * k + 1], h.data[5 * k + 2];
    if deltaLine < 0 then Failure(NegativeDeltaLine)
    else if deltaColumn < 0 then Failure(NegativeDeltaColumn)
    else if length <= 0 then Failure(EmptyToken)
    else Success(h.(index := k + 1, at := Advance(h.at, deltaLine, deltaColumn)))
  }

  /** The reading half of `assertNextToken`: reads tokens, checking each,
      until one passes the filter; the helper returned has just read it. */
  function Seek(h: Helper, legend: Legend): (r: Result<Helper, Failure>)
    requires Valid(h)
    ensures r.Success? ==> Valid(r.value) && r.value.data == h.data && r.value.filter == h.filter && h.index < r.value.index
    decreases |h.data| - 5 * h.index
  {
    TokenBound(h.data, h.index);
    if 5 * h.index >= |h.data| then Failure(TokenMissing)
    else
      match ReadToken(h)
      case Failure(e) => Failure(e)
      case Success(next) =>
        var typeIndex := TypeIndexOf(h.data, h.index);
        if h.filter != [] && !(0 <= typeIndex < |legend.tokenTypes|) then Failure(TypeIndexOutOfRange(typeIndex))
        else if Selected(legend, h.filter, typeIndex) then Success(next)
        else Seek(next, legend)
  }

  /** What a successful seek passed over: well-formed tokens the filter
      skips, up to a well-formed token it selects. */
  lemma {:induction false} SeekSelects(h: Helper, legend: Legend)
    requires Valid(h)
    ensures var r := Seek(h, legend);
            r.Success? ==>
              && SkippedRange(legend, h.filter, h.data, h.index, r.value.index - 1)
              && WellFormedToken(h.data, r.value.index - 1)
              && Selected(legend, h.filter, TypeIndexOf(h.data, r.value.index - 1))
    decreases |h.data| - 5 * h.index
  {
    TokenBound(h.data, h.index);
    if 5 * h.index < |h.data| {
      var read := ReadToken(h);
      if read.Success? {
        var typeIndex := TypeIndexOf(h.data, h.index);
        if !(h.filter != [] && !(0 <= typeIndex < |legend.tokenTypes|)) && !Selected(legend, h.filter, typeIndex) {
          assert Skipped(legend, h.filter, typeIndex);
          assert Seek(h, legend) == Seek(read.value, legend);
          SeekSelects(read.value, legend);
        }
      }
    }
  }

  /** A seek that runs out of tokens passed over only skipped ones. */
  lemma {:induction false} SeekRunsOut(h: Helper, legend: Legend)
    requires Valid(h)
    ensures Seek(h, legend) == Failure(TokenMissing) ==> SkippedRange(legend, h.filter, h.data, h.index, |h.data| / 5)
    decreases |h.data| - 5 * h.index
  {
    TokenBound(h.data, h.index);
    if 5 * h.index < |h.data| {
      var read := ReadToken(h);
      if read.Success? {
        var typeIndex := TypeIndexOf(h.data, h.index);
        if !(h.filter != [] && !(0 <= typeIndex < |legend.tokenTypes|)) && !Selected(legend, h.filter, typeIndex) {
          SeekRunsOut(read.value, legend);
        }
      }
    }
  }

  /** Conversely, a seek stops at the first well-formed selected token
      after a run of well-formed skipped ones. */
  lemma {:induction false} SeekReaches(h: Helper, legend: Legend, k: nat)
    requires Valid(h) && h.index <= k < |h.data| / 5
    requires SkippedRange(legend, h.filter, h.data, h.index, k)
    requires WellFormedToken(h.data, k) && Selected(legend, h.filter, TypeIndexOf(h.data, k))
    ensures Seek(h, legend) == Success(h.(index := k + 1, at := PositionAfter(h.data, k + 1)))
    decreases k - h.index
  {
    TokenBound(h.data, h.index);
    if h.index < k {
      SeekReaches(ReadToken(h).value, legend, k);
    }
  }

  /** A match: the helper after the call, and the token it checked. */
  datatype Match = Match(helper: Helper, token: Token)

  /** `assertNextToken`, minus the comparison of the token's text with the
      source buffer: reads up to the next token that passes the filter, then
      checks that token's type and modifiers. */
  function AssertNextToken(h: Helper, legend: Legend, expectedType: string, expectedModifiers: seq<string>)
    : (r: Result<Match, Failure>)
    requires Valid(h)
    ensures r.Success? ==>
              var h' := r.value.helper;
              && Valid(h') && h'.data == h.data && h'.filter == h.filter
              && h.index < h'.index
              && r.value.token == TokenAt(h.data, h'.index - 1)
  {
    match Seek(h, legend)
    case Failure(e) => Failure(e)
    case Success(h') =>
      var token := TokenAt(h.data, h'.index - 1);
      if !(0 <= token.typeIndex < |legend.tokenTypes|) then Failure(TypeIndexOutOfRange(token.typeIndex))
      else if legend.tokenTypes[token.typeIndex] != expectedType then Failure(WrongType(legend.tokenTypes[token.typeIndex]))
      else
        assert InRange(token.modifiers) by { assert token.modifiers == h.data[5 * (h'.index - 1) + 4]; }
        match ModifierMismatch(legend, token.modifiers, expectedModifiers, 0)
        case Some(i) => Failure(WrongModifier(legend.tokenModifiers[i]))
        case None => Success(Match(h', token))
  }

  /** What a passing assertion established: the tokens it passed over were
      well formed and skipped, and the token it stopped at is well formed,
      selected, of the expected type and carries exactly the expected
      modifiers; and an assertion that found no token passed over only
      skipped ones. */
  lemma AssertNextTokenChecks(h: Helper, legend: Legend, expectedType: string, expectedModifiers: seq<string>)
    requires Valid(h)
    ensures var r := AssertNextToken(h, legend, expectedType, expectedModifiers);
            r.Success? ==>
              var h' := r.value.helper;
              var t := r.value.token;
              && SkippedRange(legend, h.filter, h.data, h.index, h'.index - 1)
              && WellFormedToken(h.data, h'.index - 1)
              && t.at == h'.at
              && Selected(legend, h.filter, t.typeIndex)
              && 0 <= t.typeIndex < |legend.tokenTypes| && legend.tokenTypes[t.typeIndex] == expectedType
              && InRange(t.modifiers)
              && forall i :: 0 <= i < |legend.tokenModifiers| ==>
                   (ModifierBits.IsEncoded(t.modifiers, i) <==> legend.tokenModifiers[i] in expectedModifiers)
    ensures AssertNextToken(h, legend, expectedType, expectedModifiers) == Failure(TokenMissing) ==>
              SkippedRange(legend, h.filter, h.data, h.index, |h.data| / 5)
  {
    SeekSelects(h, legend);
    SeekRunsOut(h, legend);
    var r := AssertNextToken(h, legend, expectedType, expectedModifiers);
    if r.Success? {
      var h' := r.value.helper;
      assert r.value.token.modifiers == h.data[5 * (h'.index - 1) + 4];
    }
  }

  /** The converse of `AssertNextTokenChecks`: when the tokens before `k`
      are well formed and skipped, and token `k` is well formed, selected, of
      the expected type and carries exactly the expected modifiers, the
      assertion passes and stops at token `k`. */
  lemma AssertionPasses(h: Helper, legend: Legend, k: nat, expectedType: string, expectedModifiers: seq<string>)
    requires Valid(h) && h.index <= k < |h.data| / 5
    requires SkippedRange(legend, h.filter, h.data, h.index, k)
    requires WellFormedToken(h.data, k)
    requires var t := TokenAt(h.data, k);
             && Selected(legend, h.filter, t.typeIndex)
             && 0 <= t.typeIndex < |legend.tokenTypes| && legend.tokenTypes[t.typeIndex] == expectedType
             && InRange(t.modifiers)
             && forall i :: 0 <= i < |legend.tokenModifiers| ==>
                  (ModifierBits.IsEncoded(t.modifiers, i) <==> legend.tokenModifiers[i] in expectedModifiers)
    ensures var r := AssertNextToken(h, legend, expectedType, expectedModifiers);
            r.Success? && r.value.helper.index == k + 1 && r.value.token == TokenAt(h.data, k)
  {
    SeekReaches(h, legend, k);
  }

  /** The token an assertion checks in an encoded stream is the token that
      was encoded there. */
  lemma CheckedTokenWasEncoded(ts: seq<Token>, h: Helper, legend: Legend, expectedType: string, expectedModifiers: seq<string>)
    requires Valid(h) && h.data == Encode(ts)
    ensures var r := AssertNextToken(h, legend, expectedType, expectedModifiers);
            r.Success? ==> r.value.token == ts[r.value.helper.index - 1]
  {
    var r := AssertNextToken(h, legend, expectedType, expectedModifiers);
    if r.Success? {
      DecodedToken(ts, r.value.helper.index - 1);
    }
  }

  /** With no filter, an assertion reads exactly the next token, and passes
      exactly when that token is there, well formed, of the expected type and
      with exactly the expected modifiers. */
  lemma {:induction false} UnfilteredAssertion(h: Helper, legend: Legend, expectedType: string, expectedModifiers: seq<string>)
    requires Valid(h) && h.filter == []
    ensures var r := AssertNextToken(h, legend, expectedType, expectedModifiers);
            r.Success? ==> r.value.helper.index == h.index + 1
    ensures AssertNextToken(h, legend, expectedType, expectedModifiers).Success? <==>
              && h.index < |h.data| / 5
              && WellFormedToken(h.data, h.index)
              && var t := TokenAt(h.data, h.index);
                 && 0 <= t.typeIndex < |legend.tokenTypes| && legend.tokenTypes[t.typeIndex] == expectedType
                 && InRange(t.modifiers)
                 && forall i :: 0 <= i < |legend.tokenModifiers| ==>
                      (ModifierBits.IsEncoded(t.modifiers, i) <==> legend.tokenModifiers[i] in expectedModifiers)
  {
    var r := AssertNextToken(h, legend, expectedType, expectedModifiers);
    if h.index < |h.data| / 5 {
      var k := h.index;
      if WellFormedToken(h.data, k) {
        var h' := h.(index := k + 1, at := Advance(h.at, h.data[5 * k], h.data[5 * k + 1]));
        assert Seek(h, legend) == Success(h');
        assert TokenAt(h.data, k).modifiers == h.data[5 * k + 4];
      }
    }
  }

  /** `endAssertion`: with no filter, every token must have been read; with
      a filter, no unread token may pass it. */
  method EndAssertion(h: Helper, legend: Legend) returns (r: Option<Failure>)
    requires Valid(h)
    ensures h.filter == [] ==> (r.None? <==> h.index == |h.data| / 5)
    ensures h.filter != [] ==>
              (r.None? <==> forall k :: h.index <= k < |h.data| / 5 ==> Skipped(legend, h.filter, TypeIndexOf(h.data, k)))
  {
    if h.filter == [] {
      return if 5 * h.index == |h.data| then None else Some(TokensRemain);
    }
    TokenBound(h.data, h.index);
    var i := h.index;
    while 5 * i < |h.data|
      invariant h.index <= i <= |h.data| / 5
      invariant 5 * i < |h.data| <==> i < |h.data| / 5
      invariant forall k :: h.index <= k < i ==> Skipped(legend, h.filter, TypeIndexOf(h.data, k))
    {
      TokenBound(h.data, i);
      var typeIndex := TypeIndexOf(h.data, i);
      if !(0 <= typeIndex < |legend.tokenTypes|) {
        return Some(TypeIndexOutOfRange(typeIndex));
      }
      if legend.tokenTypes[typeIndex] in h.filter {
        return Some(FilteredTokenRemains(legend.tokenTypes[typeIndex]));
      }
      i := i + 1;
      TokenBound(h.data, i);
    }
    assert i == |h.data| / 5;
    return None;
  }
}
