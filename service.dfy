/**
 * `process_text` as a whole (decode, tokenize, measure, aggregate) and the
 * content-addressed cache that `count_words_in_file` keeps in front of it.
 *
 * Decoding the bytes as UTF-8 and the MD5 hex digest are library calls; the cache
 * holds them as function values fixed at construction, so nothing here depends on
 * how they work inside: decoding may fail, and two contents may share a digest.
 */
module Service {
  import opened Optional
  import Tokenizer
  import Statistics

  /** A byte of the uploaded file. */
  newtype Byte = b: int | 0 <= b < 256

  /** The hex digest of a file's bytes, the key of the cache. */
  type Digest = string

  /** `[len(word) for word in words]` */
  function WordLengths(words: seq<string>): (lengths: seq<nat>)
    ensures |lengths| == |words|
    ensures forall k :: 0 <= k < |words| ==> lengths[k] == |words[k]|
  {
    seq(|words|, k requires 0 <= k < |words| => |words[k]|)
  }

  /** The length of every token of `text`, in the order findall returns them. */
  function TokenLengths(text: string): (lengths: seq<nat>)
    ensures |lengths| == |Tokenizer.Tokenize(text)|
    ensures forall j :: 0 <= j < |lengths| ==>
      lengths[j] == Tokenizer.Tokenize(text)[j].end - Tokenizer.Tokenize(text)[j].start >= 1
  {
    WordLengths(Tokenizer.Words(text))
  }

  /** `process_text`: None stands for the exception a failed decode raises. */
  function ProcessText(decode: seq<Byte> -> Option<string>, content: seq<Byte>): (r: Option<Statistics.Stats>)
    ensures r.Some? <==> decode(content).Some?
  {
    match decode(content)
    case None => None
    case Some(text) => Some(Statistics.Summarize(TokenLengths(text)))
  }

  /**
   * The totals `process_text` reports for a decoded text: one count per token, a mean
   * length that is 0 exactly when there is no token, and distribution counts that add
   * up to the word count.
   */
  lemma TextTotals(text: string)
    ensures var st := Statistics.Summarize(TokenLengths(text));
      && st.wordCount == |Tokenizer.Tokenize(text)|
      && (st.averageWordLength == 0.0 <==> st.wordCount == 0)
      && Statistics.SumCounts(st.distribution) == st.wordCount
  {
    var xs := TokenLengths(text);
    Statistics.WordCountAndAverage(xs);
    Statistics.AverageIsMean(xs);
    Statistics.DistributionSumsToWordCount(xs);
  }

  /** Every key of the distribution `d` is the length of one of `toks`, and is at least 1. */
  predicate KeysAreLengths(d: seq<Statistics.Entry>, toks: seq<Tokenizer.Token>) {
    forall k :: 0 <= k < |d| ==>
      d[k].0 >= 1 && exists j :: 0 <= j < |toks| && toks[j].end - toks[j].start == d[k].0
  }

  /** The length of every non-empty one of `toks` is a key of the distribution `d`. */
  predicate LengthsAreKeys(d: seq<Statistics.Entry>, toks: seq<Tokenizer.Token>) {
    forall j :: 0 <= j < |toks| && toks[j].start < toks[j].end ==>
      Statistics.HasKey(d, toks[j].end - toks[j].start)
  }

  /**
   * The distribution `process_text` reports for a decoded text: ascending keys, each the
   * length of some token and so at least 1, and every token length among the keys.
   */
  lemma TextDistribution(text: string)
    ensures var d := Statistics.Summarize(TokenLengths(text)).distribution;
      && Statistics.StrictlyAscending(d)
      && KeysAreLengths(d, Tokenizer.Tokenize(text))
      && LengthsAreKeys(d, Tokenizer.Tokenize(text))
  {
    LengthKeys(Tokenizer.Tokenize(text), TokenLengths(text));
  }

  /** The distribution of the lengths of a token list, for any tokens of positive length. */
  lemma LengthKeys(toks: seq<Tokenizer.Token>, xs: seq<nat>)
    requires |xs| == |toks|
    requires forall j :: 0 <= j < |xs| ==> xs[j] == toks[j].end - toks[j].start >= 1
    ensures var d := Statistics.Summarize(xs).distribution;
      && Statistics.StrictlyAscending(d)
      && KeysAreLengths(d, toks)
      && LengthsAreKeys(d, toks)
  {
    var d := Statistics.Summarize(xs).distribution;
    Statistics.DistributionIsHistogram(xs);
    forall k | 0 <= k < |d|
      ensures d[k].0 >= 1
      ensures exists j :: 0 <= j < |toks| && toks[j].end - toks[j].start == d[k].0
    {
      var j :| 0 <= j < |xs| && xs[j] == d[k].0;
    }
    forall j | 0 <= j < |toks| ensures Statistics.HasKey(d, toks[j].end - toks[j].start) {
      assert xs[j] in xs;
    }
  }

  /** The reply of the upload endpoint, before it is turned into JSON. */
  datatype Reply =
    | Computed(stats: Statistics.Stats, cached: bool)
    | InternalError

  /** The module-level `cache` dictionary, keyed by the digest of the raw bytes. */
  class Cache {
    const digest: seq<Byte> -> Digest
    const decode: seq<Byte> -> Option<string>
    var entries: map<Digest, Statistics.Stats>
    /** For each entry, the content whose processing stored it. */
    ghost var sources: map<Digest, seq<Byte>>

    /** Every entry holds the statistics of a content that has its digest. */
    ghost predicate Valid()
      reads this
    {
      && sources.Keys == entries.Keys
      && forall d :: d in entries ==>
           digest(sources[d]) == d && ProcessText(decode, sources[d]) == Some(entries[d])
    }

    /** `cache = {}` */
    constructor (digest: seq<Byte> -> Digest, decode: seq<Byte> -> Option<string>)
      ensures Valid()
      ensures this.digest == digest && this.decode == decode
      ensures entries == map[]
    {
      this.digest := digest;
      this.decode := decode;
      entries := map[];
      sources := map[];
    }

    /**
     * The part of `count_words_in_file` after the file is read: a hit returns the stored
     * statistics flagged as cached and changes nothing; a miss processes the content,
     * stores the result under its digest and returns it flagged as not cached; a failed
     * decode stores nothing.
     */
    method Handle(content: seq<Byte>) returns (reply: Reply)
      requires Valid()
      modifies this
      ensures Valid()
      ensures var d := digest(content);
        d in old(entries) ==> reply == Computed(old(entries)[d], true) && entries == old(entries)
      ensures var d := digest(content);
        d !in old(entries) && decode(content).None? ==> reply == InternalError && entries == old(entries)
      ensures var d := digest(content);
        d !in old(entries) && decode(content).Some? ==>
          && reply == Computed(ProcessText(decode, content).value, false)
          && entries == old(entries)[d := reply.stats]
      ensures reply.Computed? ==>
        var d := digest(content);
        d in sources && digest(sources[d]) == d && ProcessText(decode, sources[d]) == Some(reply.stats)
    {
      var d := digest(content);
      if d in entries {
        reply := Computed(entries[d], true);
      } else {
        match ProcessText(decode, content)
        case None =>
          reply := InternalError;
        case Some(st) =>
          entries := entries[d := st];
          sources := sources[d := content];
          reply := Computed(st, false);
      }
    }
  }

  /**
   * Two uploads of the same bytes into an empty cache: the first is computed, the
   * second is served from the cache with the same statistics.
   */
  method UploadTwice(digest: seq<Byte> -> Digest, decode: seq<Byte> -> Option<string>, content: seq<Byte>)
    returns (first: Reply, second: Reply)
    requires decode(content).Some?
    ensures first == Computed(ProcessText(decode, content).value, false)
    ensures second == Computed(first.stats, true)
  {
    var cache := new Cache(digest, decode);
    first := cache.Handle(content);
    second := cache.Handle(content);
  }
}
