/** The error model: a failure is a deferred message, rendered only when
    written to a stream. Its structure records how it was built (a leaf
    message, or an index tag around an inner error); only the rendered text
    is observable. */
module Errors {
  import opened Strings

  /** `Empty` is a default-constructed error (no message producer),
      `Message` a producer that writes a fixed text, and `Indexed` the
      producer built by `index`, which writes "[i] " and then the inner
      error. */
  datatype Error =
    | Empty
    | Message(text: string)
    | Indexed(index: nat, inner: Error)

  /** A converter's outcome: a value, or an error (never both). */
  datatype Result<+T> = Success(value: T) | Failure(error: Error)

  /** Runs the error's message producer on a stream that already holds
      `out`; the result is the stream's content afterwards. An empty error
      writes nothing. */
  function Emit(out: string, e: Error): (r: string)
    ensures |out| <= |r| && r[..|out|] == out
    decreases e
  {
    match e
    case Empty => out
    case Message(text) => out + text
    case Indexed(i, inner) => Emit(out + Tag(i), inner)
  }

  /** What `index` writes before the inner error: "[i] ". */
  function Tag(i: nat): string
  {
    "[" + NatToString(i) + "] "
  }

  /** The text an error writes on an empty stream. */
  function Render(e: Error): string
  {
    Emit("", e)
  }

  /** Writing an error appends exactly its rendering, whatever the stream
      already holds. */
  lemma {:induction false} EmitAppends(out: string, e: Error)
    ensures Emit(out, e) == out + Render(e)
    decreases e
  {
    match e
    case Empty =>
    case Message(text) =>
      assert "" + text == text;
    case Indexed(i, inner) =>
      var tag := Tag(i);
      assert "" + tag == tag;
      calc {
        Emit(out, e);
        Emit(out + tag, inner);
        { EmitAppends(out + tag, inner); }
        (out + tag) + Render(inner);
        out + (tag + Render(inner));
        { EmitAppends(tag, inner); }
        out + Emit(tag, inner);
        out + Render(e);
      }
  }

  /** Error(): the default error renders as nothing. */
  function Default(): (r: Error)
    ensures Render(r) == ""
  {
    Empty
  }

  /** Error::index: tags an error with the position it occurred at. */
  function Index(e: Error, i: nat): (r: Error)
    ensures Render(r) == "[" + NatToString(i) + "] " + Render(e)
  {
    EmitAppends(Tag(i), e);
    assert "" + Tag(i) == Tag(i);
    Indexed(i, e)
  }

  /** Error::forward: passes an error on unchanged. */
  function Forward(e: Error): (r: Error)
    ensures Render(r) == Render(e)
  {
    e
  }

  /** Error::generic: an error whose producer writes `msg` (the text the
      producer writes, computed here rather than deferred). */
  function Generic(msg: string): (r: Error)
    ensures Render(r) == msg
  {
    Message(msg)
  }

  /** Error::text: an error that writes the given string. */
  function Text(msg: string): (r: Error)
    ensures Render(r) == msg
  {
    Generic(msg)
  }

  /** `os << error`: the stream receives the error's rendering. */
  function Insert(out: string, e: Error): (r: string)
    ensures r == out + Render(e)
  {
    EmitAppends(out, e);
    Emit(out, e)
  }
}
