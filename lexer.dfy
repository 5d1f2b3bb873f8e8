/** The lexer (`get_op_string`): every one of the eight operator characters becomes one
    unit op, in source order; every other character is dropped. */
module Lexer {
  import opened Ops

  /** The characters the language gives a meaning to. */
  predicate IsOpChar(c: char) {
    c in "><+-.,[]"
  }

  /** The closure given to `filter_map`: `None` drops the character. */
  function LexChar(c: char): (r: Option<Op>)
    ensures r.Some? <==> IsOpChar(c)
    ensures r.Some? ==> IsUnit(r.value)
  {
    match c
    case '>' => Some(IncrPointer(1))
    case '<' => Some(DecrPointer(1))
    case '+' => Some(IncrData(1))
    case '-' => Some(DecrData(1))
    case '.' => Some(Output)
    case ',' => Some(Input)
    case '[' => Some(LoopStart(0))
    case ']' => Some(LoopEnd(0))
    case _ => None
  }

  function Lex(s: string): seq<Op> {
    if s == [] then []
    else
      (match LexChar(s[0]) case Some(op) => [op] case None => []) + Lex(s[1..])
  }

  /** The operator characters of `s`, in order: what the filter keeps. */
  function OpChars(s: string): (r: string)
    ensures forall k :: 0 <= k < |r| ==> IsOpChar(r[k])
  {
    if s == [] then []
    else if IsOpChar(s[0]) then [s[0]] + OpChars(s[1..])
    else OpChars(s[1..])
  }

  /** The character an op is written as; the inverse of `LexChar` on unit ops. */
  function Show(op: Op): (c: char)
    ensures IsOpChar(c)
  {
    match op
    case IncrPointer(_) => '>'
    case DecrPointer(_) => '<'
    case IncrData(_) => '+'
    case DecrData(_) => '-'
    case Output => '.'
    case Input => ','
    case LoopStart(_) => '['
    case LoopEnd(_) => ']'
  }

  function Unlex(ops: seq<Op>): (s: string)
    ensures |s| == |ops|
  {
    if ops == [] then [] else [Show(ops[0])] + Unlex(ops[1..])
  }

  /** Exactly one op per operator character, in source order, each the character's op. */
  lemma {:induction false} LexIsOnePerOpChar(s: string)
    ensures |Lex(s)| == |OpChars(s)|
    ensures forall k :: 0 <= k < |Lex(s)| ==> LexChar(OpChars(s)[k]) == Some(Lex(s)[k])
  {
    if s != [] {
      LexIsOnePerOpChar(s[1..]);
    }
  }

  /** Every op the lexer produces has count 1 or target 0. */
  lemma {:induction false} LexIsUnit(s: string)
    ensures forall k :: 0 <= k < |Lex(s)| ==> IsUnit(Lex(s)[k])
  {
    if s != [] {
      LexIsUnit(s[1..]);
    }
  }

  /** A text without operator characters lexes to nothing. */
  lemma {:induction false} LexDropsOthers(s: string)
    requires forall k :: 0 <= k < |s| ==> !IsOpChar(s[k])
    ensures Lex(s) == []
  {
    if s != [] {
      LexDropsOthers(s[1..]);
    }
  }

  /** Lexing distributes over concatenation of source texts. */
  lemma {:induction false} LexAppend(a: string, b: string)
    ensures Lex(a + b) == Lex(a) + Lex(b)
  {
    if a == [] {
      assert a + b == b;
    } else {
      assert (a + b)[0] == a[0];
      assert (a + b)[1..] == a[1..] + b;
      LexAppend(a[1..], b);
    }
  }

  /** Printing the lexed ops gives back the operator characters of the source. */
  lemma {:induction false} UnlexLex(s: string)
    ensures Unlex(Lex(s)) == OpChars(s)
  {
    if s != [] {
      UnlexLex(s[1..]);
      match LexChar(s[0])
      case Some(op) =>
        assert Lex(s) == [op] + Lex(s[1..]);
        assert ([op] + Lex(s[1..]))[1..] == Lex(s[1..]);
      case None =>
        assert [] + Lex(s[1..]) == Lex(s[1..]);
        assert !IsOpChar(s[0]);
    }
  }

  /** Lexing the printed form of a unit program gives the program back. */
  lemma {:induction false} LexUnlex(ops: seq<Op>)
    requires forall k :: 0 <= k < |ops| ==> IsUnit(ops[k])
    ensures Lex(Unlex(ops)) == ops
  {
    if ops != [] {
      var s := Unlex(ops);
      assert s[0] == Show(ops[0]);
      assert s[1..] == Unlex(ops[1..]);
      LexUnlex(ops[1..]);
      ShowLexChar(ops[0]);
    }
  }

  /** The character printed for a unit op reads back as that op. */
  lemma {:induction false} ShowLexChar(op: Op)
    requires IsUnit(op)
    ensures LexChar(Show(op)) == Some(op)
  {
  }
}
