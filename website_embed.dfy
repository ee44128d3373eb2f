/**
 * `embed_websiteText`: chunk the crawled text and embed every chunk. The
 * embedding model is the uninterpreted function `encode`; a raised error inside
 * the model is not modelled.
 */
module WebsiteEmbed {
  import opened Text
  import opened Chunking

  const NoDataMessage := "No website data provided"
  const NoChunksMessage := "No chunks created from website data"
  const SuccessMessage := "Website embedded successfully"

  /**
   * `embed_websiteText`: an empty text is rejected first; a text that
   * yields no chunk is rejected next; otherwise every chunk is embedded in
   * order. Only a text of separators (the empty text included) fails.
   */
  method EmbedWebsiteText<V>(data: string, encode: string -> V) returns (r: EmbedReply<V>)
    ensures data == "" ==> r == EmbedError(NoDataMessage)
    ensures data != "" && r.EmbedError? ==> r == EmbedError(NoChunksMessage)
    ensures r.EmbedError? <==> forall i :: 0 <= i < |data| ==> IsSpace(data[i])
    ensures r.EmbedSuccess? ==>
      r.message == SuccessMessage
      && r.chunks == Chunks(Words(data), ChunkSize, Overlap) && r.chunks != []
      && |r.embeddings| == |r.chunks| == r.totalChunks
      && forall i :: 0 <= i < |r.chunks| ==> r.embeddings[i] == encode(r.chunks[i])
  {
    if data == "" {
      return EmbedError(NoDataMessage);
    }
    var chunks := ChunkText(data);
    ChunksEmpty(data, ChunkSize, Overlap);
    if chunks == [] {
      return EmbedError(NoChunksMessage);
    }
    var embeddings := EncodeChunks(chunks, encode);
    r := EmbedSuccess(SuccessMessage, chunks, embeddings, |chunks|);
  }
}
