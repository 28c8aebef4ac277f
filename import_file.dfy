/** Text extraction and word chunking on the ingestion path
    (app/import_file.py). The document parsers are abstracted: a PDF is the
    sequence of its page texts, a Word document the sequence of elements its
    parser yields. */
module ImportFile {
  import opened Outcomes
  import opened PyStrings

  /** Words per chunk used by both extractors. */
  const ExtractChunkSize: int := 100

  /** Message of the `ValueError` that `itertools.batched` raises. */
  const BatchSizeMessage: string := "n must be at least one"

  function Min(a: int, b: int): int { if a <= b then a else b }

  /** `itertools.batched(xs, n)` for `n >= 1`: consecutive batches of `n`
      elements, the last one holding the remainder. */
  function Batches<T>(xs: seq<T>, n: int): (batches: seq<seq<T>>)
    requires n >= 1
    ensures batches == [] <==> xs == []
    ensures forall i :: 0 <= i < |batches| ==> 1 <= |batches[i]| <= n
    decreases |xs|
  {
    if xs == [] then []
    else if |xs| <= n then [xs]
    else [xs[..n]] + Batches(xs[n..], n)
  }

  /** `k` is the quotient of `t` by `n` when `t` lies in `[k * n, k * n + n)`. */
  lemma DivUnique(t: int, n: int, k: int)
    requires n >= 1 && k * n <= t < k * n + n
    ensures t / n == k
  {
    var q := t / n;
    assert t == q * n + t % n;
    assert (q - k) * n == q * n - k * n;
    assert (k - q) * n == k * n - q * n;
    MulAtLeast(q - k, n);
    MulAtLeast(k - q, n);
  }

  lemma MulAtLeast(d: int, n: int)
    requires n >= 1
    ensures d >= 1 ==> d * n >= n
  {
    if d >= 1 {
      assert d * n == (d - 1) * n + n;
    }
  }

  /** There are just enough batches to hold `xs`, and no more. */
  lemma {:induction false} BatchBounds<T>(xs: seq<T>, n: int)
    requires n >= 1 && xs != []
    ensures (|Batches(xs, n)| - 1) * n < |xs| <= |Batches(xs, n)| * n
    decreases |xs|
  {
    var k := |Batches(xs, n)|;
    if |xs| > n {
      BatchBounds(xs[n..], n);
      assert (k - 1) * n == (k - 2) * n + n;
      assert k * n == (k - 1) * n + n;
    }
  }

  /** There are ceil(|xs| / n) batches; stated for `|xs| == m + 1`. */
  lemma BatchCount<T>(xs: seq<T>, n: int, m: int)
    requires n >= 1 && m >= 0 && |xs| == m + 1
    ensures |Batches(xs, n)| == (m + n) / n
  {
    var k := |Batches(xs, n)|;
    BatchBounds(xs, n);
    assert k * n == (k - 1) * n + n;
    DivUnique(m + n, n, k);
  }

  /** `itertools.batched(xs, n)` including its refusal of `n < 1`. */
  function Batched<T>(xs: seq<T>, n: int): (r: Result<seq<seq<T>>>)
    ensures r.Failure? <==> n < 1
  {
    if n < 1 then Failure(ValueError(BatchSizeMessage)) else Success(Batches(xs, n))
  }

  /** All batches laid end to end. */
  function Flatten<T>(batches: seq<seq<T>>): seq<T>
  {
    if batches == [] then [] else batches[0] + Flatten(batches[1..])
  }

  /** Batch `i` is the slice of `xs` from `i * n` to `(i + 1) * n` (or to the
      end): batches are contiguous, in order, and cut nowhere else. */
  lemma {:induction false} BatchAt<T>(xs: seq<T>, n: int, i: int)
    requires n >= 1
    requires 0 <= i < |Batches(xs, n)|
    ensures i * n < |xs|
    ensures Batches(xs, n)[i] == xs[i * n .. Min(i * n + n, |xs|)]
  {
    if i > 0 {
      assert |xs| > n;
      var rest := xs[n..];
      assert Batches(xs, n) == [xs[..n]] + Batches(rest, n);
      BatchAt(rest, n, i - 1);
      var lo, hi := (i - 1) * n, Min((i - 1) * n + n, |rest|);
      assert lo + n == i * n;
      assert hi + n == Min(i * n + n, |xs|);
      assert lo <= hi;
      SliceOfDrop(xs, n, lo, hi);
    }
  }

  lemma SliceOfDrop<T>(xs: seq<T>, n: int, lo: int, hi: int)
    requires 0 <= n <= |xs| && 0 <= lo <= hi <= |xs| - n
    ensures xs[n..][lo..hi] == xs[lo + n .. hi + n]
  {
    assert forall k :: 0 <= k < hi - lo ==> xs[n..][lo..hi][k] == xs[lo + n .. hi + n][k];
  }

  /** Laying the batches end to end gives back the input. */
  lemma {:induction false} FlattenBatches<T>(xs: seq<T>, n: int)
    requires n >= 1
    ensures Flatten(Batches(xs, n)) == xs
  {
    if |xs| > n {
      FlattenBatches(xs[n..], n);
      assert ([xs[..n]] + Batches(xs[n..], n))[1..] == Batches(xs[n..], n);
    } else if xs != [] {
      assert [xs][1..] == [];
    }
  }

  /** `split_string_to_list_of_chunked_words(text, wordsInChunk)`: the text
      split on single spaces, the fields batched by `wordsInChunk`, each
      batch joined with a single space. */
  function SplitIntoChunks(text: string, wordsInChunk: int): (r: Result<seq<string>>)
    ensures r.Failure? <==> wordsInChunk < 1
    ensures r.Failure? ==> r.error == ValueError(BatchSizeMessage)
  {
    match Batched(SplitOn(text, ' '), wordsInChunk)
    case Failure(e) => Failure(e)
    case Success(batches) => Success(JoinEach(batches))
  }

  /** `[" ".join(b) for b in batches]`. */
  function JoinEach(batches: seq<seq<string>>): (chunks: seq<string>)
    ensures |chunks| == |batches|
    ensures forall i :: 0 <= i < |batches| ==> chunks[i] == JoinWith(batches[i], ' ')
  {
    if batches == [] then [] else [JoinWith(batches[0], ' ')] + JoinEach(batches[1..])
  }

  /** For a valid size, the chunks are the joined batches of the fields. */
  lemma ChunksOfValidSize(text: string, n: int)
    requires n >= 1
    ensures SplitIntoChunks(text, n) == Success(JoinEach(Batches(SplitOn(text, ' '), n)))
  {
  }

  /** Chunk `i`, split on spaces again, gives back batch `i` of the fields. */
  lemma ChunkIsBatch(text: string, n: int, i: int)
    requires n >= 1
    requires 0 <= i < |Batches(SplitOn(text, ' '), n)|
    ensures |SplitIntoChunks(text, n).value| == |Batches(SplitOn(text, ' '), n)|
    ensures SplitOn(SplitIntoChunks(text, n).value[i], ' ') == Batches(SplitOn(text, ' '), n)[i]
  {
    ChunksOfValidSize(text, n);
    var words := SplitOn(text, ' ');
    var batch := Batches(words, n)[i];
    SplitFieldsFree(text, ' ');
    BatchFieldsHaveNoSpace(words, n, i);
    SplitJoin(batch, ' ');
  }

  /** Batching moves fields without changing them: no field of a batch
      holds a space. */
  lemma BatchFieldsHaveNoSpace(words: seq<string>, n: int, i: int)
    requires n >= 1
    requires forall k :: 0 <= k < |words| ==> ' ' !in words[k]
    requires 0 <= i < |Batches(words, n)|
    ensures forall k :: 0 <= k < |Batches(words, n)[i]| ==> ' ' !in Batches(words, n)[i][k]
  {
    var batch := Batches(words, n)[i];
    BatchAt(words, n, i);
    var lo, hi := i * n, Min(i * n + n, |words|);
    assert batch == words[lo..hi];
    forall k | 0 <= k < |batch| ensures ' ' !in batch[k] {
      assert batch[k] == words[lo + k];
    }
  }

  /** Chunk `i`, split on spaces again, is exactly the slice of the text's
      fields from `i * n` to `(i + 1) * n` (or to the end): fields keep their
      order, boundaries fall only between fields, and the chunks partition
      the fields. */
  lemma ChunkFields(text: string, n: int, i: int)
    requires n >= 1
    requires 0 <= i < |SplitIntoChunks(text, n).value|
    ensures i * n < |SplitOn(text, ' ')|
    ensures SplitOn(SplitIntoChunks(text, n).value[i], ' ')
         == SplitOn(text, ' ')[i * n .. Min(i * n + n, |SplitOn(text, ' ')|)]
  {
    ChunkLength(text, n);
    ChunkIsBatch(text, n, i);
    BatchAt(SplitOn(text, ' '), n, i);
  }

  /** Every batch but the last is full. */
  lemma {:induction false} BatchFull<T>(xs: seq<T>, n: int, i: int)
    requires n >= 1
    requires 0 <= i < |Batches(xs, n)| - 1
    ensures |Batches(xs, n)[i]| == n
    decreases |xs|
  {
    if i > 0 {
      BatchFull(xs[n..], n, i - 1);
    }
  }

  /** Every chunk but the last holds exactly `n` space-separated fields; the
      last holds between 1 and `n`. */
  lemma ChunkSizes(text: string, n: int, i: int)
    requires n >= 1
    requires 0 <= i < |SplitIntoChunks(text, n).value|
    ensures i < |SplitIntoChunks(text, n).value| - 1 ==>
              |SplitOn(SplitIntoChunks(text, n).value[i], ' ')| == n
    ensures 1 <= |SplitOn(SplitIntoChunks(text, n).value[i], ' ')| <= n
  {
    ChunkLength(text, n);
    ChunkIsBatch(text, n, i);
    if i < |Batches(SplitOn(text, ' '), n)| - 1 {
      BatchFull(SplitOn(text, ' '), n, i);
    }
  }

  /** The number of chunks is ceil((number of spaces + 1) / n). */
  lemma ChunkCount(text: string, n: int)
    requires n >= 1
    ensures |SplitIntoChunks(text, n).value| == (Count(text, ' ') + n) / n
  {
    ChunkLength(text, n);
    WordBatchCount(text, n);
  }

  lemma ChunkLength(text: string, n: int)
    requires n >= 1
    ensures |SplitIntoChunks(text, n).value| == |Batches(SplitOn(text, ' '), n)|
  {
    ChunksOfValidSize(text, n);
  }

  lemma WordBatchCount(text: string, n: int)
    requires n >= 1
    ensures |Batches(SplitOn(text, ' '), n)| == (Count(text, ' ') + n) / n
  {
    SplitLength(text, ' ');
    BatchCount(SplitOn(text, ' '), n, Count(text, ' '));
  }

  /** There is always at least one chunk. */
  lemma ChunksNeverEmpty(text: string, n: int)
    requires n >= 1
    ensures SplitIntoChunks(text, n).value != []
  {
    ChunksOfValidSize(text, n);
  }

  /** Joining the chunks with single spaces gives back the text exactly. */
  lemma ChunksRoundTrip(text: string, n: int)
    requires n >= 1
    ensures JoinWith(SplitIntoChunks(text, n).value, ' ') == text
  {
    ChunksOfValidSize(text, n);
    var words := SplitOn(text, ' ');
    var batches := Batches(words, n);
    JoinEachFlatten(batches);
    FlattenBatches(words, n);
    JoinSplit(text, ' ');
  }

  /** Joining each batch and then the results is joining all words at once,
      provided no batch is empty. */
  lemma {:induction false} JoinEachFlatten(batches: seq<seq<string>>)
    requires batches != []
    requires forall i :: 0 <= i < |batches| ==> batches[i] != []
    ensures Flatten(batches) != []
    ensures JoinWith(JoinEach(batches), ' ') == JoinWith(Flatten(batches), ' ')
  {
    if |batches| == 1 {
      assert batches[1..] == [];
      assert Flatten(batches) == batches[0];
    } else {
      var rest := batches[1..];
      JoinEachFlatten(rest);
      assert JoinEach(batches)[1..] == JoinEach(rest);
      JoinAppend(batches[0], Flatten(rest), ' ');
    }
  }

  /** Empty text is one empty chunk, not no chunk. */
  lemma EmptyTextIsOneEmptyChunk(n: int)
    requires n >= 1
    ensures SplitIntoChunks("", n) == Success([""])
  {
    ChunksOfValidSize("", n);
    assert SplitOn("", ' ') == [""];
    assert Batches([""], n) == [[""]];
    assert JoinEach([[""]]) == [JoinWith([""], ' ')];
  }

  /** Two spaces in a row make an empty field between them: no whitespace
      is normalised away. */
  lemma DoubleSpaceMakesEmptyField(a: string, b: string)
    ensures SplitOn(a + [' ', ' '] + b, ' ') == SplitOn(a, ' ') + [""] + SplitOn(b, ' ')
  {
    var tail := [' '] + b;
    var s := a + [' ', ' '] + b;
    assert s == a + [' '] + tail;
    assert [] + [' '] + b == tail;
    calc {
      SplitOn(s, ' ');
      SplitOn(a + [' '] + tail, ' ');
      { SplitAround(a, tail, ' '); }
      SplitOn(a, ' ') + SplitOn(tail, ' ');
      { SplitAround([], b, ' '); }
      SplitOn(a, ' ') + ([""] + SplitOn(b, ' '));
    }
  }

  /** Empty fields count toward the chunk size. */
  lemma EmptyFieldsCountTowardChunkSize()
    ensures SplitIntoChunks("a  b", 2) == Success(["a ", "b"])
  {
    DoubleSpaceMakesEmptyField("a", "b");
    assert "a  b" == "a" + [' ', ' '] + "b";
    SplitWithoutSeparator("a", ' ');
    SplitWithoutSeparator("b", ' ');
    var words := SplitOn("a  b", ' ');
    assert words == ["a", "", "b"];
    var batches := Batches(words, 2);
    assert batches == [["a", ""], ["b"]] by {
      assert words[..2] == ["a", ""] && words[2..] == ["b"];
    }
    ChunksOfValidSize("a  b", 2);
    assert JoinWith(["a", ""], ' ') == "a ";
    assert JoinEach([["b"]]) == ["b"];
    assert JoinEach(batches) == [JoinWith(["a", ""], ' ')] + JoinEach([["b"]]);
    assert [JoinWith(["a", ""], ' ')] + JoinEach([["b"]]) == ["a ", "b"];
  }

  /** One element yielded by the Word document parser: its type tag and its
      fields. */
  datatype Item = Item(kind: string, fields: map<string, string>)

  /** The texts of the items that carry a "text" field, in document order. */
  function TextFields(items: seq<Item>): (texts: seq<string>)
    ensures |texts| <= |items|
  {
    if items == [] then []
    else
      var last := items[|items| - 1];
      TextFields(items[..|items| - 1]) + (if "text" in last.fields then [last.fields["text"]] else [])
  }

  /** The text `get_docx_text` accumulates. */
  function DocxText(items: seq<Item>): (text: string)
    ensures |text| == TotalLength(TextFields(items))
  {
    Concat(TextFields(items))
  }

  /** The text of two runs of elements is the text of the first followed by
      the text of the second. */
  lemma {:induction false} TextFieldsAppend(a: seq<Item>, b: seq<Item>)
    ensures TextFields(a + b) == TextFields(a) + TextFields(b)
  {
    if b != [] {
      assert (a + b)[..|a + b| - 1] == a + b[..|b| - 1];
      TextFieldsAppend(a, b[..|b| - 1]);
    } else {
      assert a + b == a;
    }
  }

  /** An element without a "text" field is skipped; one with it adds
      exactly its text, in its place. */
  lemma TextFieldsOfItem(a: seq<Item>, item: Item, b: seq<Item>)
    ensures TextFields(a + [item] + b)
         == TextFields(a) + (if "text" in item.fields then [item.fields["text"]] else []) + TextFields(b)
  {
    TextFieldsAppend(a + [item], b);
    TextFieldsAppend(a, [item]);
    assert [item][..0] == [];
  }

  /** Every element carrying "text" contributes one text: when all of them
      do, there are as many texts as elements; when none does, there are
      none. */
  lemma {:induction false} TextFieldsCount(items: seq<Item>)
    ensures (forall i :: 0 <= i < |items| ==> "text" in items[i].fields) ==>
              |TextFields(items)| == |items|
    ensures (forall i :: 0 <= i < |items| ==> "text" !in items[i].fields) ==>
              TextFields(items) == []
  {
    if items != [] {
      var init := items[..|items| - 1];
      TextFieldsCount(init);
      assert forall i :: 0 <= i < |init| ==> init[i] == items[i];
    }
  }

  /** Only elements carrying "text" contribute, each with exactly that
      text, in order and with nothing between them. */
  lemma DocxTextAppend(a: seq<Item>, b: seq<Item>)
    ensures DocxText(a + b) == DocxText(a) + DocxText(b)
  {
    TextFieldsAppend(a, b);
    ConcatAppend(TextFields(a), TextFields(b));
  }

  /** An element without a "text" field contributes nothing; one with it
      contributes exactly its text. */
  lemma DocxTextOfItem(a: seq<Item>, item: Item, b: seq<Item>)
    ensures DocxText(a + [item] + b)
         == DocxText(a) + (if "text" in item.fields then item.fields["text"] else "") + DocxText(b)
  {
    DocxTextAppend(a + [item], b);
    DocxTextAppend(a, [item]);
    assert [item][..0] == [];
    if "text" in item.fields {
      assert [item.fields["text"]][..0] == [];
    }
  }

  /** `get_pdf_text`: the page texts accumulated in order with no separator,
      then chunked by `ExtractChunkSize` words. */
  method GetPdfText(pages: seq<string>) returns (chunks: seq<string>)
    ensures SplitIntoChunks(Concat(pages), ExtractChunkSize) == Success(chunks)
    ensures JoinWith(chunks, ' ') == Concat(pages)
  {
    var pageText := "";
    for i := 0 to |pages|
      invariant pageText == Concat(pages[..i])
    {
      assert pages[..i + 1][..i] == pages[..i];
      pageText := pageText + pages[i];
    }
    assert pages[..|pages|] == pages;
    ChunksRoundTrip(pageText, ExtractChunkSize);
    chunks := SplitIntoChunks(pageText, ExtractChunkSize).value;
  }

  /** `get_docx_text`: the text of every element carrying "text",
      accumulated in order, then chunked by `ExtractChunkSize` words. */
  method GetDocxText(items: seq<Item>) returns (chunks: seq<string>)
    ensures SplitIntoChunks(DocxText(items), ExtractChunkSize) == Success(chunks)
    ensures JoinWith(chunks, ' ') == DocxText(items)
  {
    var pageText := "";
    for i := 0 to |items|
      invariant pageText == DocxText(items[..i])
    {
      var item := items[i];
      DocxTextOfItem(items[..i], item, []);
      assert items[..i] + [item] + [] == items[..i + 1];
      if "text" in item.fields {
        pageText := pageText + item.fields["text"];
      }
    }
    assert items[..|items|] == items;
    ChunksRoundTrip(pageText, ExtractChunkSize);
    chunks := SplitIntoChunks(pageText, ExtractChunkSize).value;
  }
}
