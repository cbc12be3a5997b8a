/**
 * The two pure helpers of app.py: `get_model_name`, which strips the
 * publisher path from a model identifier and wraps it in backticks, and
 * `get_storage_url`, which turns a `gs://` reference into a public URL.
 */
module Helpers {
  import opened Wrappers
  import opened Strings

  /** The publisher path that `get_model_name` removes. */
  const PublisherPath: string := "publishers/google/models/"

  /** The scheme marker that `get_storage_url` splits on. */
  const SchemeMarker: string := "gs://"

  /** The public base that `get_storage_url` prepends. */
  const StorageBase: string := "https://storage.googleapis.com/"

  /** `get_model_name`: the identifier (the model's internal name) with the publisher path removed, in backticks. */
  function GetModelName(modelName: string): (name: string) {
    InlineCode(Replace(modelName, PublisherPath, ""))
  }

  /** The f-string f"`{text}`": text set in backticks. */
  function InlineCode(text: string): (code: string) {
    "`" + text + "`"
  }

  /** `get_storage_url`: the base plus the second piece of `gcsUri.split("gs://")`; IndexError when there is none. */
  function GetStorageUrl(gcsUri: string): (url: Result<string, Error>) {
    var parts := Split(gcsUri, SchemeMarker);
    if |parts| < 2 then Failure(IndexOutOfRange) else Success(StorageBase + parts[1])
  }

  /**
   * Every occurrence of the publisher path is removed, not only a leading one:
   * the identifier is its pieces joined by the path, no piece holds the path,
   * and the label is the same pieces with nothing between them.
   */
  lemma ModelNameRemovesEveryOccurrence(modelName: string)
    ensures modelName == Join(Split(modelName, PublisherPath), PublisherPath)
    ensures GetModelName(modelName) == InlineCode(Join(Split(modelName, PublisherPath), ""))
    ensures forall k :: 0 <= k < |Split(modelName, PublisherPath)| ==>
      !Contains(Split(modelName, PublisherPath)[k], PublisherPath)
  {
    SplitPiecesHoldNoSeparator(modelName, PublisherPath);
    SplitJoinBack(modelName, PublisherPath);
    ReplaceIsJoinOfSplit(modelName, PublisherPath, "");
  }

  /** Each removed occurrence shortens the identifier by the length of the publisher path; the backticks add two. */
  lemma ModelNameLength(modelName: string)
    ensures |GetModelName(modelName)| ==
      |modelName| - (|Split(modelName, PublisherPath)| - 1) * |PublisherPath| + 2
  {
    ReplaceLength(modelName, PublisherPath, "");
  }

  /** An identifier without the publisher path comes back unchanged, in backticks. */
  lemma ModelNameWithoutPath(modelName: string)
    requires !Contains(modelName, PublisherPath)
    ensures GetModelName(modelName) == InlineCode(modelName)
  {
    ReplaceWithoutPattern(modelName, PublisherPath, "");
  }

  /** The full identifier of the Pro model is displayed as `gemini-1.5-pro`. */
  lemma ModelNameOfPro()
    ensures GetModelName("publishers/google/models/gemini-1.5-pro") == "`gemini-1.5-pro`"
  {
    var id := "publishers/google/models/gemini-1.5-pro";
    assert id[..|PublisherPath|] == PublisherPath;
    assert id[|PublisherPath|..] == "gemini-1.5-pro";
  }

  /** get_storage_url fails with IndexError exactly when the reference holds no "gs://". */
  lemma StorageUrlFailsWithoutMarker(gcsUri: string)
    ensures GetStorageUrl(gcsUri).Failure? <==> !Contains(gcsUri, SchemeMarker)
    ensures GetStorageUrl(gcsUri).Failure? ==> GetStorageUrl(gcsUri).error == IndexOutOfRange
  {
    SplitHasTwoPieces(gcsUri, SchemeMarker);
  }

  /**
   * In general the URL is the base plus the text after the first "gs://" up
   * to the next "gs://", or to the end of the reference.
   */
  lemma StorageUrlTakesSecondPiece(gcsUri: string, i: nat)
    requires Find(gcsUri, SchemeMarker) == Some(i)
    ensures
      var rest := gcsUri[i + |SchemeMarker|..];
      GetStorageUrl(gcsUri) == Success(StorageBase +
        match Find(rest, SchemeMarker)
        case Some(j) => rest[..j]
        case None => rest)
  {
    var rest := gcsUri[i + |SchemeMarker|..];
    assert Split(gcsUri, SchemeMarker) == [gcsUri[..i]] + Split(rest, SchemeMarker);
  }

  /** A reference "gs://" + p, with no further "gs://" in p, maps to the base followed by p. */
  lemma StorageUrlOfPath(path: string)
    requires !Contains(path, SchemeMarker)
    ensures GetStorageUrl(SchemeMarker + path) == Success(StorageBase + path)
  {
    var uri := SchemeMarker + path;
    assert uri[..|SchemeMarker|] == SchemeMarker;
    assert uri[|SchemeMarker|..] == path;
    SplitWithoutSeparator(path, SchemeMarker);
  }

  /** The example object reference maps to its public URL. */
  lemma StorageUrlOfExampleObject()
    ensures GetStorageUrl("gs://my-bucket/path/to/object.txt") ==
      Success("https://storage.googleapis.com/my-bucket/path/to/object.txt")
  {
    var path := "my-bucket/path/to/object.txt";
    assert ':' !in path;
    MissingCharNotContained(path, SchemeMarker, 2);
    assert SchemeMarker + path == "gs://my-bucket/path/to/object.txt";
    assert StorageBase + path == "https://storage.googleapis.com/my-bucket/path/to/object.txt";
    StorageUrlOfPath(path);
  }
}
