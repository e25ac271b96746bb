/** Whole-input validation, splitting on spaces and pair-token extraction (DataParser, GuardAgainstInvalidInput). */
module Parsing {
  import opened ErrorReporting

  datatype Result<T> = Ok(value: T) | Fail(error: Error)

  /** char.IsWhiteSpace: the characters of the Unicode White_Space property. */
  predicate IsWhiteSpace(ch: char)
  {
    ch == ' ' || '\t' <= ch <= '\r' || ch == '\U{85}' || ch == '\U{A0}' || ch == '\U{1680}'
    || '\U{2000}' <= ch <= '\U{200A}' || ch == '\U{2028}' || ch == '\U{2029}' || ch == '\U{202F}'
    || ch == '\U{205F}' || ch == '\U{3000}'
  }

  /** string.IsNullOrWhiteSpace on a non-null token: empty, or whitespace only. */
  predicate IsNullOrWhiteSpace(token: string)
  {
    forall i :: 0 <= i < |token| ==> IsWhiteSpace(token[i])
  }

  predicate IsUpper(ch: char)
  {
    'A' <= ch <= 'Z'
  }

  /** The five characters from position i have the shape ( U , U ) with U an uppercase letter. */
  predicate PairAt(token: string, i: nat)
    requires i + 5 <= |token|
  {
    token[i] == '(' && IsUpper(token[i + 1]) && token[i + 2] == ',' && IsUpper(token[i + 3]) && token[i + 4] == ')'
  }

  /** Regex.IsMatch with the pattern \([A-Z]{1}\,[A-Z]{1}\): the pattern is not anchored,
      so it suffices that some window of five characters has the pair shape. */
  predicate ContainsPair(token: string)
  {
    exists i: nat :: i + 5 <= |token| && PairAt(token, i)
  }

  /** The concrete token that encodes the pair (p, c). */
  function Format(p: char, c: char): (token: string)
  {
    ['(', p, ',', c, ')']
  }

  /** ExtractValues: rejects a blank token or one without a pair window (InvalidInput), otherwise
      takes the characters at the fixed positions 1 and 3. */
  function ExtractValues(token: string): (r: Result<(char, char)>)
    ensures r.Ok? <==> ContainsPair(token)
    ensures r.Ok? ==> |token| >= 5 && r.value == (token[1], token[3])
    ensures r.Fail? ==> r.error == InvalidInput
  {
    if IsNullOrWhiteSpace(token) || !ContainsPair(token) then Fail(InvalidInput)
    else Ok((token[1], token[3]))
  }

  /** A well-formed pair token is accepted and yields exactly the pair it encodes. */
  lemma ExtractFormat(p: char, c: char)
    requires IsUpper(p) && IsUpper(c)
    ensures ExtractValues(Format(p, c)) == Ok((p, c))
  {
    assert PairAt(Format(p, c), 0);
  }

  /** The values of every token, in order; the first invalid token aborts with InvalidInput. */
  function ExtractAll(tokens: seq<string>): (r: Result<seq<(char, char)>>)
    ensures r.Ok? <==> forall i :: 0 <= i < |tokens| ==> ContainsPair(tokens[i])
    ensures r.Ok? ==> |r.value| == |tokens|
    ensures r.Ok? ==> forall i :: 0 <= i < |tokens| ==> |tokens[i]| >= 5 && r.value[i] == (tokens[i][1], tokens[i][3])
    ensures r.Fail? ==> r.error == InvalidInput
  {
    if tokens == [] then Ok([])
    else
      match ExtractValues(tokens[0])
      case Fail(e) => Fail(e)
      case Ok(pair) =>
        match ExtractAll(tokens[1..])
        case Fail(e) => Fail(e)
        case Ok(rest) => Ok([pair] + rest)
  }

  /** The inverse of Split: the tokens with one space between neighbours. */
  function Join(tokens: seq<string>): string
    requires |tokens| >= 1
  {
    if |tokens| == 1 then tokens[0] else tokens[0] + " " + Join(tokens[1..])
  }

  /** string.Split(' '): every space ends a token, so doubled spaces give empty tokens. */
  function Split(s: string): (tokens: seq<string>)
    ensures |tokens| >= 1
    ensures forall i :: 0 <= i < |tokens| ==> ' ' !in tokens[i]
  {
    if s == [] then [""]
    else
      var rest := Split(s[1..]);
      if s[0] == ' ' then [""] + rest
      else [[s[0]] + rest[0]] + rest[1..]
  }

  /** Joining the tokens of a split gives back the input. */
  lemma {:induction false} JoinSplit(s: string)
    ensures Join(Split(s)) == s
  {
    if s != [] {
      var rest := Split(s[1..]);
      JoinSplit(s[1..]);
      if s[0] == ' ' {
        assert Split(s)[1..] == rest;
      } else {
        var tokens := Split(s);
        assert tokens[1..] == rest[1..];
        if |rest| == 1 {
          assert tokens == [[s[0]] + rest[0]];
        } else {
          assert Join(rest) == rest[0] + " " + Join(rest[1..]);
          assert Join(tokens) == ([s[0]] + rest[0]) + " " + Join(rest[1..]);
        }
        assert s == [s[0]] + s[1..];
      }
    }
  }

  /** Splitting the join of space-free tokens gives back the tokens. */
  lemma {:induction false} SplitJoin(tokens: seq<string>)
    requires |tokens| >= 1
    requires forall i :: 0 <= i < |tokens| ==> ' ' !in tokens[i]
    ensures Split(Join(tokens)) == tokens
  {
    if |tokens| == 1 {
      SplitToken(tokens[0], "", [""]);
      assert tokens[0] + "" == tokens[0];
    } else {
      SplitJoin(tokens[1..]);
      var tail := " " + Join(tokens[1..]);
      assert Split(tail) == [""] + tokens[1..] by {
        assert tail[1..] == Join(tokens[1..]);
      }
      SplitToken(tokens[0], tail, [""] + tokens[1..]);
      assert Join(tokens) == tokens[0] + tail;
      assert tokens[0] + "" == tokens[0];
      assert [tokens[0]] + tokens[1..] == tokens;
    }
  }

  /** A space-free prefix glues onto the first token of the rest. */
  lemma {:induction false} SplitToken(word: string, tail: string, rest: seq<string>)
    requires ' ' !in word && Split(tail) == rest
    ensures Split(word + tail) == [word + rest[0]] + rest[1..]
  {
    if word != [] {
      SplitToken(word[1..], tail, rest);
      assert (word + tail)[1..] == word[1..] + tail;
      assert [word[0]] + (word[1..] + rest[0]) == word + rest[0];
    } else {
      assert word + tail == tail;
      assert word + rest[0] == rest[0];
      assert [rest[0]] + rest[1..] == rest;
    }
  }

  /** GuardAgainstInvalidInput: the input is rejected when empty or when it starts or ends with a space. */
  predicate InputShapeOk(input: string)
  {
    |input| > 0 && input[0] != ' ' && input[|input| - 1] != ' '
  }

  /** GuardAgainstInvalidInput followed by ExtractData: the pairs of a well-shaped input, or InvalidInput. */
  function ParseInput(input: string): (r: Result<seq<(char, char)>>)
    ensures r.Fail? ==> r.error == InvalidInput
    ensures r.Ok? ==> |r.value| == |Split(input)| >= 1
  {
    if !InputShapeOk(input) then Fail(InvalidInput)
    else ExtractAll(Split(input))
  }

  /** The input is malformed exactly when it is empty, starts or ends with a space, or one of its
      space-separated tokens (empty ones included) is blank or holds no pair window. */
  lemma ParseInputFailsIffMalformed(input: string)
    ensures ParseInput(input).Fail? <==>
      (|input| == 0 || input[0] == ' ' || input[|input| - 1] == ' ' ||
       exists token :: token in Split(input) && (IsNullOrWhiteSpace(token) || !ContainsPair(token)))
  {
    var tokens := Split(input);
    if InputShapeOk(input) && ParseInput(input).Fail? {
      var i :| 0 <= i < |tokens| && !ContainsPair(tokens[i]);
      assert tokens[i] in tokens;
    }
  }

  /** Two tokens written with a single space between them split back into those two tokens. */
  lemma SplitTwo(a: string, b: string)
    requires ' ' !in a && ' ' !in b
    ensures Split(a + " " + b) == [a, b]
  {
    SplitJoin([a, b]);
    assert Join([a, b]) == a + " " + Join([b]);
  }

  /** Three tokens written with single spaces between them split back into those three tokens. */
  lemma SplitThree(a: string, b: string, c: string)
    requires ' ' !in a && ' ' !in b && ' ' !in c
    ensures Split(a + " " + b + " " + c) == [a, b, c]
  {
    SplitJoin([a, b, c]);
    assert Join([a, b, c]) == a + " " + Join([b, c]);
    assert Join([b, c]) == b + " " + Join([c]);
    assert a + " " + b + " " + c == a + " " + (b + " " + c);
  }

  /** An exactly five-character token: the intended reading of the pair grammar. */
  function ExtractValuesExact(token: string): (r: Result<(char, char)>)
    ensures r.Ok? <==> |token| == 5 && PairAt(token, 0)
    ensures r.Ok? ==> IsUpper(r.value.0) && IsUpper(r.value.1) && token == Format(r.value.0, r.value.1)
    ensures r.Fail? ==> r.error == InvalidInput
  {
    if |token| == 5 && PairAt(token, 0) then Ok((token[1], token[3])) else Fail(InvalidInput)
  }

  /** On tokens of exactly five characters the unanchored check agrees with the exact one. */
  lemma ExactAgreesOnFiveCharacters(token: string)
    requires |token| == 5
    ensures ExtractValues(token) == ExtractValuesExact(token)
  {
    if ExtractValues(token).Ok? {
      var i: nat :| i + 5 <= |token| && PairAt(token, i);
      assert i == 0;
    }
  }

  /** As written, a longer token passes the unanchored match and its "values" are whatever sits
      at positions 1 and 3: here a closing bracket and a letter, not the pair (A, B) it contains. */
  lemma UnanchoredTokenYieldsBracket()
    ensures ExtractValues("x)(A,B)") == Ok((')', 'A'))
    ensures ExtractValuesExact("x)(A,B)").Fail?
  {
    assert PairAt("x)(A,B)", 2);
  }
}
