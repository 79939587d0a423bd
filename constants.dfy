/** Default values of chroma_ops/constants.py used by the model. */
module Constants {

  /** The FTS tokenizer `rebuild_fts` falls back to. */
  const DefaultTokenizer: string := "trigram"
}
