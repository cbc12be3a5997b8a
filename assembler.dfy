/**
 * Response assembly in `get_gemini_response` (app.py): the non-streaming
 * branch hands back the response's text, the streaming branch reads the text
 * of every chunk, puts "" in place of a chunk whose text is missing, and joins
 * the list with one space.
 */
module Assembler {
  import opened Wrappers
  import opened Strings

  /** One streamed chunk: its text, or None when reading `.text` raises IndexError. */
  type Chunk = Option<string>

  /** What the model provider returned: one payload when not streaming, a finite chunk sequence when streaming. */
  datatype Response =
    | Unary(payload: Option<string>)
    | Streamed(chunks: seq<Chunk>)

  /** The separator `" ".join` puts between entries. */
  const Space: string := " "

  /** The entry one chunk adds to the accumulation list. */
  function ChunkText(c: Chunk): (entry: string) {
    match c
    case Some(t) => t
    case None => ""
  }

  /** The accumulation list a whole chunk sequence produces, in arrival order. */
  function Texts(chunks: seq<Chunk>): (entries: seq<string>)
    decreases |chunks|
  {
    if chunks == [] then [] else [ChunkText(chunks[0])] + Texts(chunks[1..])
  }

  /** One entry per chunk, each at its chunk's position, "" for a missing text. */
  lemma {:induction false} TextsAt(chunks: seq<Chunk>, k: nat)
    requires k < |chunks|
    ensures |Texts(chunks)| == |chunks|
    ensures Texts(chunks)[k] == ChunkText(chunks[k])
    ensures chunks[k].None? ==> Texts(chunks)[k] == ""
    decreases |chunks|
  {
    if k == 0 {
      TextsLength(chunks);
    } else {
      TextsAt(chunks[1..], k - 1);
    }
  }

  /** The accumulation list has exactly as many entries as there are chunks, missing texts included. */
  lemma {:induction false} TextsLength(chunks: seq<Chunk>)
    ensures |Texts(chunks)| == |chunks|
    decreases |chunks|
  {
    if chunks != [] {
      TextsLength(chunks[1..]);
    }
  }

  /** Handling one more chunk appends exactly its entry. */
  lemma {:induction false} TextsAppend(chunks: seq<Chunk>, c: Chunk)
    ensures Texts(chunks + [c]) == Texts(chunks) + [ChunkText(c)]
    decreases |chunks|
  {
    if chunks == [] {
      assert [c][1..] == [];
    } else {
      TextsAppend(chunks[1..], c);
      assert (chunks + [c])[1..] == chunks[1..] + [c];
    }
  }

  /**
   * The streaming branch: the `for` loop over the chunks with the
   * try/except substitution, then `" ".join(final_response)`.
   */
  method AssembleStream(chunks: seq<Chunk>) returns (text: string)
    ensures text == Join(Texts(chunks), Space)
  {
    var finalResponse: seq<string> := [];
    var i := 0;
    while i < |chunks|
      invariant 0 <= i <= |chunks|
      invariant finalResponse == Texts(chunks[..i])
    {
      TextsAppend(chunks[..i], chunks[i]);
      assert chunks[..i + 1] == chunks[..i] + [chunks[i]];
      match chunks[i] {
        case Some(t) =>
          finalResponse := finalResponse + [t];
        case None =>
          finalResponse := finalResponse + [""];
      }
      i := i + 1;
    }
    assert chunks[..i] == chunks;
    text := Join(finalResponse, Space);
  }

  /**
   * `get_gemini_response` once the provider has answered: `stream` selects
   * the branch, and the provider's answer has the matching shape.
   */
  method GetGeminiResponse(stream: bool, response: Response) returns (r: Result<string, Error>)
    requires stream == response.Streamed?
    ensures !stream ==> (r.Success? <==> response.payload.Some?)
    ensures !stream && r.Success? ==> r.value == response.payload.value
    ensures !stream && r.Failure? ==> r.error == PayloadUnavailable
    ensures stream ==> r == Success(Join(Texts(response.chunks), Space))
  {
    if !stream {
      match response.payload
      case Some(t) =>
        return Success(t);
      case None =>
        return Failure(PayloadUnavailable);
    }
    var text := AssembleStream(response.chunks);
    r := Success(text);
  }

  /** A stream with no chunks assembles to the empty string. */
  lemma EmptyStreamIsEmpty()
    ensures Join(Texts([]), Space) == ""
  {
  }

  /** When every chunk carries text, the entries are exactly those texts in arrival order, with no placeholder. */
  lemma StreamOfPresentTexts(chunks: seq<Chunk>)
    requires forall k :: 0 <= k < |chunks| ==> chunks[k].Some?
    ensures Texts(chunks) == seq(|chunks|, k requires 0 <= k < |chunks| => chunks[k].value)
  {
    TextsLength(chunks);
    forall k | 0 <= k < |chunks| ensures Texts(chunks)[k] == chunks[k].value {
      TextsAt(chunks, k);
    }
  }

  /** Entries are separated by exactly one space each: the length is the texts' plus one per gap. */
  lemma AssembledLength(chunks: seq<Chunk>)
    requires chunks != []
    ensures |Join(Texts(chunks), Space)| == TotalLength(Texts(chunks)) + |chunks| - 1
  {
    TextsLength(chunks);
    JoinLength(Texts(chunks), Space);
  }

  /**
   * Order and count survive assembly: when no chunk text holds a space,
   * splitting the result on " " gives back the entries, one per chunk.
   */
  lemma AssembledSplitsBack(chunks: seq<Chunk>)
    requires chunks != []
    requires forall k :: 0 <= k < |chunks| ==> ' ' !in ChunkText(chunks[k])
    ensures Split(Join(Texts(chunks), Space), Space) == Texts(chunks)
    ensures |Split(Join(Texts(chunks), Space), Space)| == |chunks|
  {
    TextsLength(chunks);
    forall k | 0 <= k < |Texts(chunks)| ensures ' ' !in Texts(chunks)[k] {
      TextsAt(chunks, k);
    }
    SplitJoinOneChar(Texts(chunks), ' ');
  }

  /** The example stream "Hello", a chunk without text, "world" assembles to "Hello  world". */
  lemma HelloWorldStream()
    ensures Join(Texts([Some("Hello"), None, Some("world")]), Space) == "Hello  world"
  {
    var cs: seq<Chunk> := [Some("Hello"), None, Some("world")];
    assert cs[1..] == [None, Some("world")];
    assert cs[1..][1..] == [Some("world")];
    assert Texts(cs) == ["Hello", "", "world"];
  }
}
