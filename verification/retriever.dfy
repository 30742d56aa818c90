/** One pass of the retrieval loop: the nearest chunk is looked up, the
    distance threshold decides between the fixed apology and the formatted
    chunk, and the exchange is recorded in the history. The embedding model
    and the vector index are outside the model: their nearest-neighbour
    answer is an input. */
module Retriever {
  import opened Results
  import Chunker
  import Formatter
  import History

  /** `THRESHOLD`: the largest nearest-neighbour distance still answered. */
  const Threshold: real := 1.2

  /** The reply when the nearest chunk is too far away. */
  const NoInformation: string := "Sorry, I don't have information related to your question."

  /** The index's answer for k = 1: the position of the nearest chunk and its
      squared L2 distance. */
  datatype Neighbor = Neighbor(position: int, distance: real)

  /** `chunks[i]` with Python's indexing: negative positions count from the
      end, anything outside the list raises IndexError. */
  function ChunkAt(chunks: seq<string>, i: int): (r: Result<string>)
    ensures r.Ok? <==> -|chunks| <= i < |chunks|
    ensures r.Err? ==> r.fault == IndexError
    ensures 0 <= i < |chunks| ==> r == Ok(chunks[i])
    ensures i < 0 && r.Ok? ==> r == Ok(chunks[|chunks| + i])
  {
    if 0 <= i < |chunks| then Ok(chunks[i])
    else if -|chunks| <= i < 0 then Ok(chunks[|chunks| + i])
    else Err(IndexError)
  }

  /** The answer to one query. The chunk is fetched before the distance is
      compared with the threshold, so a bad position raises whatever the
      distance. The apology is given exactly when the distance is strictly
      above the threshold; at or below it the fetched chunk is formatted for
      the query. */
  function Answer(chunks: seq<string>, query: string, best: Neighbor): (r: Result<string>)
    ensures ChunkAt(chunks, best.position).Err? ==> r == Err(IndexError)
    ensures r == Ok(NoInformation) <==>
              ChunkAt(chunks, best.position).Ok? && best.distance > Threshold
    ensures ChunkAt(chunks, best.position).Ok? && best.distance <= Threshold ==>
              r == Formatter.FormatTeamAnswer(ChunkAt(chunks, best.position).value, query)
  {
    match ChunkAt(chunks, best.position)
    case Err(f) => Err(f)
    case Ok(chunk) =>
      if best.distance > Threshold then Ok(NoInformation)
      else
        var formatted := Formatter.FormatTeamAnswer(chunk, query);
        assert formatted != Ok(NoInformation) by {
          assert NoInformation[|NoInformation| - 1] == '.';
        }
        formatted
  }

  /** The state the loop carries from one query to the next. */
  datatype Session = Session(chunks: seq<string>, history: seq<History.Entry>)

  /** One query: answer it, then append the exchange to the history and
      evict the oldest entry if the cap is exceeded. The context built from
      the history is not used for the answer. */
  function Turn(s: Session, query: string, best: Neighbor): (r: Result<(string, Session)>)
    ensures r.Err? <==> Answer(s.chunks, query, best).Err?
    ensures r.Ok? ==> r.value.0 == Answer(s.chunks, query, best).value
    ensures r.Ok? ==> r.value.1.chunks == s.chunks
    ensures r.Ok? ==> var h := r.value.1.history;
              |h| > 0 && h[|h| - 1] == History.Entry(query, r.value.0)
    ensures r.Ok? ==> r.value.1.history == History.Record(s.history, History.Entry(query, r.value.0))
    ensures r.Ok? && |s.history| <= History.MaxHistory ==>
              |r.value.1.history| <= History.MaxHistory
  {
    match Answer(s.chunks, query, best)
    case Err(f) => Err(f)
    case Ok(answer) =>
      Ok((answer, Session(s.chunks, History.Record(s.history, History.Entry(query, answer)))))
  }

  /** When the chunks come from the chunker and the position the index
      reports is one of theirs, a query never raises. */
  lemma LoadedTurnSucceeds(text: string, history: seq<History.Entry>, query: string, best: Neighbor)
    requires 0 <= best.position < |Chunker.Chunks(text)|
    ensures Turn(Session(Chunker.Chunks(text), history), query, best).Ok?
  {
    Formatter.ChunksHaveLabels(text, best.position, query);
  }
}
