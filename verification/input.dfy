/** lexer::Input: a cursor over one line of text. */
module InputCursor {
  import opened Errors

  /** The unconsumed suffix of the line and the offset at which it starts. */
  datatype Input = Input(pos: nat, rest: string)

  /** `inp` is a cursor over `line`: what is left is exactly the part of the
      line after the offset. */
  ghost predicate Over(inp: Input, line: string) {
    inp.pos + |inp.rest| == |line| && inp.rest == line[inp.pos..]
  }

  /** Input(line): nothing consumed yet. */
  function Fresh(line: string): (inp: Input)
    ensures inp.pos == 0
    ensures Over(inp, line)
  {
    Input(0, line)
  }

  predicate Empty(inp: Input) {
    |inp.rest| == 0
  }

  const NotEnoughInput: string := "internal: not enough input to consume"

  /** consume(len): drop the first `len` characters, or fail without change. */
  function Consume(inp: Input, len: nat): (r: Result<Input>)
    ensures r.Err? <==> |inp.rest| < len
    ensures r.Err? ==> r.error == LexerError(NotEnoughInput)
    ensures r.Ok? ==> r.value.pos == inp.pos + len
    ensures r.Ok? ==> inp.rest == inp.rest[..len] + r.value.rest
  {
    if |inp.rest| < len then Err(LexerError(NotEnoughInput))
    else Ok(Input(inp.pos + len, inp.rest[len..]))
  }

  /** consume(sub): consume as many characters as `sub` has. */
  function ConsumeView(inp: Input, sub: string): (r: Result<Input>)
    ensures r.Ok? <==> |sub| <= |inp.rest|
    ensures r.Ok? ==> r.value.pos == inp.pos + |sub|
    ensures r.Ok? ==> r.value.rest == inp.rest[|sub|..]
  {
    Consume(inp, |sub|)
  }

  /** Consuming keeps the cursor over the same line: the offset plus what is
      left is always the length of the line. */
  lemma ConsumeStaysOver(inp: Input, line: string, len: nat)
    requires Over(inp, line)
    requires Consume(inp, len).Ok?
    ensures Over(Consume(inp, len).value, line)
    ensures Consume(inp, len).value.rest == line[inp.pos + len..]
  {
  }

  /** Consumption composes: two steps consume what one step of the summed
      length does. */
  lemma {:induction false} ConsumeAdditive(inp: Input, a: nat, b: nat)
    requires Consume(inp, a).Ok?
    ensures Consume(Consume(inp, a).value, b) == Consume(inp, a + b)
  {
    var mid := Consume(inp, a).value;
    assert mid.rest == inp.rest[a..];
  }
}
