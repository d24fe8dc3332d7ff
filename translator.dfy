/** The batch translation protocol of `translateSubtitles`: the subtitle list
    is cut into batches, each batch is sent as a numbered list (one line
    "n. text" per entry), and the completion's reply is matched back line by
    line, so that every source entry yields exactly one output entry whose
    fields other than `text` are untouched. The completion service is an
    input: `complete(i)` is the reply content of the call made for batch
    `i`, or `None` when that call threw. */
module Translator {
  import opened Wrappers
  import opened JsString

  /** A subtitle entry: its `text` and every other field the parser gave it
      (index, timestamps, ...), which the translator copies without looking. */
  datatype Entry<Fields> = Entry(fields: Fields, text: string)

  /** The value `translateSubtitles` is called with: an array of entries or
      anything else. */
  datatype Subs<Fields> = Array(items: seq<Entry<Fields>>) | NotArray

  /** The one error `translateSubtitles` throws itself. */
  datatype Error = SubsNotAnArray

  /** The reply content of the completion call made for batch `i` (whose
      user message is the batch's numbered payload); `None` when the call, or
      `choices[0].message.content.trim()`, threw. */
  type Completion = nat -> Option<string>

  /** Batch size used when the caller passes none. */
  const DefaultBatchSize: int := 50

  /** The `batchSize = 50` default parameter. */
  function BatchSize(batchSize: Option<int>): (size: int)
    ensures batchSize.None? ==> size == 50
    ensures batchSize.Some? ==> size == batchSize.value
  {
    batchSize.GetOr(DefaultBatchSize)
  }

  /** `out` is `src` entry for entry, except possibly for the `text` fields. */
  predicate SameExceptText<F(==)>(out: seq<Entry<F>>, src: seq<Entry<F>>) {
    |out| == |src| && forall i :: 0 <= i < |src| ==> out[i].fields == src[i].fields
  }

  // ---------------------------------------------------------------------------
  // chunkArray

  /** The concatenation of a sequence of pieces. */
  function Flatten<T>(pieces: seq<seq<T>>): seq<T>
  {
    if |pieces| == 0 then [] else pieces[0] + Flatten(pieces[1..])
  }

  /** The pieces `chunkArray` produces: consecutive slices of `size`
      elements, the last one possibly shorter. */
  function Chunks<T>(a: seq<T>, size: int): seq<seq<T>>
    requires size >= 1 || |a| == 0
    decreases |a|
  {
    if |a| == 0 then []
    else
      var end := if size < |a| then size else |a|;
      [a[..end]] + Chunks(a[end..], size)
  }

  /** `chunkArray(array, chunkSize)`, with `items` for the array. The loop only ends for a positive step
      or an empty array. */
  method ChunkArray<T>(items: seq<T>, chunkSize: int) returns (chunks: seq<seq<T>>)
    requires chunkSize >= 1 || |items| == 0
    ensures chunks == Chunks(items, chunkSize)
  {
    chunks := [];
    var i := 0;
    while i < |items|
      invariant 0 <= i
      invariant i > 0 ==> chunkSize >= 1
      invariant chunks + Chunks(items[Min(i, |items|)..], chunkSize) == Chunks(items, chunkSize)
      decreases |items| - i
    {
      ChunksStep(items, chunkSize, i, chunks);
      chunks := chunks + [items[i..Min(i + chunkSize, |items|)]];
      i := i + chunkSize;
    }
  }

  /** Taking one more slice of `size` (or what is left) from position `i`
      keeps the chunks taken so far followed by the chunks still to come. */
  lemma ChunksStep<T>(items: seq<T>, size: int, i: nat, done: seq<seq<T>>)
    requires size >= 1 && i < |items|
    ensures (done + [items[i..Min(i + size, |items|)]]) + Chunks(items[Min(i + size, |items|)..], size)
      == done + Chunks(items[i..], size)
  {
    var end := Min(i + size, |items|);
    var rest := items[i..];
    assert rest[..end - i] == items[i..end];
    assert rest[end - i..] == items[end..];
    assert Chunks(rest, size) == [items[i..end]] + Chunks(items[end..], size);
  }

  function Min(a: int, b: int): int {
    if a < b then a else b
  }

  // ---------------------------------------------------------------------------
  // The numbered batch payload (line 41)

  /** The line `${n}. ${text}`. */
  function NumberedLine(n: nat, text: string): string {
    Digits(n) + ". " + text
  }

  /** One numbered line per entry of the batch, numbered from 1. */
  function NumberedLines<F>(chunk: seq<Entry<F>>): (lines: seq<string>)
    ensures |lines| == |chunk|
    ensures forall k :: 0 <= k < |chunk| ==> lines[k] == NumberedLine(k + 1, chunk[k].text)
  {
    seq(|chunk|, k requires 0 <= k < |chunk| => NumberedLine(k + 1, chunk[k].text))
  }

  /** The user message sent for a batch: its numbered lines joined by newlines. */
  function EncodeBatch<F>(chunk: seq<Entry<F>>): string {
    Join(NumberedLines(chunk), '\n')
  }

  // ---------------------------------------------------------------------------
  // Decoding a reply (lines 73-98)

  /** `content.trim().split("\n")`. */
  function ReplyLines(content: string): (lines: seq<string>)
    ensures |lines| >= 1
    ensures forall i :: 0 <= i < |lines| ==> '\n' !in lines[i]
  {
    Split(Trim(content), '\n')
  }

  /** The marker the reply line for entry `n` must start with: `${n}.`. */
  function Marker(n: nat): string {
    Digits(n) + "."
  }

  /** The test of the `find` callback: `line.trim().startsWith(`${n}.`)`. */
  predicate AnswersEntry(line: string, n: nat) {
    StartsWith(Trim(line), Marker(n))
  }

  /** Line `i` is the first line that answers entry `n`. */
  predicate FirstAnswer(lines: seq<string>, n: nat, i: nat) {
    i < |lines| && AnswersEntry(lines[i], n) && forall j :: 0 <= j < i ==> !AnswersEntry(lines[j], n)
  }

  /** At most one line is the first to answer an entry. */
  lemma FirstAnswerUnique(lines: seq<string>, n: nat, i: nat)
    requires FirstAnswer(lines, n, i)
    ensures forall i': nat :: FirstAnswer(lines, n, i') ==> i' == i
  {
  }

  /** `lines.find(...)` for entry `n`, as the index of the line found. */
  function FindAnswer(lines: seq<string>, n: nat): (r: Option<nat>)
    ensures r.Some? ==> FirstAnswer(lines, n, r.value)
    ensures r.None? ==> forall j :: 0 <= j < |lines| ==> !AnswersEntry(lines[j], n)
  {
    FindFrom(lines, line => AnswersEntry(line, n), 0)
  }

  /** `Array.prototype.find` with callback `p`, from index `start` on, knowing
      no earlier element satisfied `p`; the index of the element found. */
  function FindFrom<T>(xs: seq<T>, p: T -> bool, start: nat): (r: Option<nat>)
    requires forall j :: 0 <= j < start && j < |xs| ==> !p(xs[j])
    ensures r.Some? ==> start <= r.value < |xs| && p(xs[r.value])
    ensures r.Some? ==> forall j :: 0 <= j < r.value ==> !p(xs[j])
    ensures r.None? ==> forall j :: 0 <= j < |xs| ==> !p(xs[j])
    decreases |xs| - start
  {
    if start >= |xs| then None
    else if p(xs[start]) then Some(start)
    else FindFrom(xs, p, start + 1)
  }

  /** `s` begins with what `\d+\.` matches. */
  predicate HasNumberPrefix(s: string) {
    exists d :: 1 <= d < |s| && s[d] == '.' && forall k :: 0 <= k < d ==> IsDigit(s[k])
  }

  /** `s` is entirely matched by `\d+\.\s*`. */
  predicate IsNumberPrefix(s: string) {
    exists d :: 1 <= d < |s| && s[d] == '.' && (forall k :: 0 <= k < d ==> IsDigit(s[k]))
      && forall k :: d < k < |s| ==> IsWhitespace(s[k])
  }

  // The regular-expression replacement of line 85 (pattern ^\d+\.\s*, replaced
  // by ""): removes a leading run of digits, the period after it and the
  // whitespace after that, and leaves a line that does not begin that way as it is.
  function StripNumber(line: string): (r: string)
    ensures |r| <= |line| && r == line[|line| - |r|..]
    ensures !HasNumberPrefix(line) ==> r == line
    ensures HasNumberPrefix(line) ==>
      IsNumberPrefix(line[..|line| - |r|]) && (r == [] || !IsWhitespace(r[0]))
  {
    var d := LeadingDigits(line);
    if 1 <= d < |line| && line[d] == '.' then
      var w := LeadingWhitespace(line[d + 1..]);
      NumberPrefixFound(line, d, w);
      line[d + 1 + w..]
    else
      NumberPrefixAbsent(line);
      line
  }

  /** A run of digits, a period and whitespace found at the start of `line`
      is a number prefix, after which no whitespace is left. */
  lemma NumberPrefixFound(line: string, d: nat, w: nat)
    requires d == LeadingDigits(line) && 1 <= d < |line| && line[d] == '.'
    requires w == LeadingWhitespace(line[d + 1..])
    ensures HasNumberPrefix(line) && IsNumberPrefix(line[..d + 1 + w])
    ensures d + 1 + w == |line| || !IsWhitespace(line[d + 1 + w])
  {
    var p := line[..d + 1 + w];
    assert p[d] == '.';
    assert forall k :: 0 <= k < d ==> IsDigit(p[k]);
    assert forall k :: d < k < |p| ==> IsWhitespace(p[k]) by {
      forall k | d < k < |p| ensures IsWhitespace(p[k]) {
        assert p[k] == line[d + 1..][k - d - 1];
      }
    }
  }

  /** When the leading digits are not followed by a period, no number prefix
      of any length is there. */
  lemma NumberPrefixAbsent(line: string)
    requires var d := LeadingDigits(line); !(1 <= d < |line| && line[d] == '.')
    ensures !HasNumberPrefix(line)
  {
    var d := LeadingDigits(line);
    forall d' | 1 <= d' < |line| && line[d'] == '.'
      ensures !forall k :: 0 <= k < d' ==> IsDigit(line[k])
    {
    }
  }

  /** The text an entry gets from its matching line: the line without its
      number, trimmed, or the original text when that is empty (the `||`
      fallback). */
  function AnswerText(line: string, original: string): (t: string)
    ensures t == original || (t == Trim(StripNumber(line)) && t != [])
    ensures t == original <== Trim(StripNumber(line)) == []
    ensures Trim(StripNumber(line)) != [] ==> t == Trim(StripNumber(line))
  {
    var translation := Trim(StripNumber(line));
    if translation == [] then original else translation
  }

  /** The entry pushed for position `n` (counted from 1) of a batch whose
      reply split into `lines`: `{...item, text}` with the first matching
      line's text, or the entry unchanged when no line matches. What it
      promises about `text` is stated by the lemmas DecodeEntryUnanswered,
      DecodeEntryAnswered and DecodeEntryNeverEmpties. */
  function DecodeEntry<F>(lines: seq<string>, item: Entry<F>, n: nat): (r: Entry<F>)
    ensures r.fields == item.fields
  {
    match FindAnswer(lines, n)
    case None => item.(text := item.text)
    case Some(i) => item.(text := AnswerText(lines[i], item.text))
  }

  /** No reply line answers entry `n`: the entry is pushed unchanged. */
  lemma DecodeEntryUnanswered<F>(lines: seq<string>, item: Entry<F>, n: nat)
    requires forall j :: 0 <= j < |lines| ==> !AnswersEntry(lines[j], n)
    ensures DecodeEntry(lines, item, n) == item
  {
  }

  /** Line `i` is the first to answer entry `n`: the entry's text becomes
      that line's translation, or stays as it was when the line, stripped of
      its number and trimmed, is empty. Later lines with the same number are
      ignored. */
  lemma DecodeEntryAnswered<F>(lines: seq<string>, item: Entry<F>, n: nat, i: nat)
    requires FirstAnswer(lines, n, i)
    ensures DecodeEntry(lines, item, n) == item.(text := AnswerText(lines[i], item.text))
  {
    FirstAnswerUnique(lines, n, i);
  }

  /** Decoding never turns a non-empty text into an empty one. */
  lemma DecodeEntryNeverEmpties<F>(lines: seq<string>, item: Entry<F>, n: nat)
    requires item.text != []
    ensures DecodeEntry(lines, item, n).text != []
  {
  }

  /** The entries pushed for a batch whose reply split into `lines`: entry k
      of the batch is decoded against the marker `${k + 1}.`. */
  function DecodeBatch<F(==)>(lines: seq<string>, chunk: seq<Entry<F>>): (r: seq<Entry<F>>)
    ensures SameExceptText(r, chunk)
    ensures forall k :: 0 <= k < |chunk| ==> r[k] == DecodeEntry(lines, chunk[k], k + 1)
  {
    MapIndexed(chunk, (k: nat, item: Entry<F>) => DecodeEntry(lines, item, k + 1))
  }

  /** The values `f(index, element)` in array order, as `forEach` with a push visits them. */
  function MapIndexed<A, B>(xs: seq<A>, f: (nat, A) -> B): (r: seq<B>)
    ensures |r| == |xs|
    ensures forall k :: 0 <= k < |xs| ==> r[k] == f(k, xs[k])
  {
    seq(|xs|, k requires 0 <= k < |xs| => f(k, xs[k]))
  }

  // ---------------------------------------------------------------------------
  // The batch loop (lines 28-117)

  /** What one batch appends to `allTranslated`: the decoded entries when the
      completion call returned `reply`, the batch's own entries when it threw. */
  function BatchOutput<F(==)>(chunk: seq<Entry<F>>, reply: Option<string>): (out: seq<Entry<F>>)
    ensures SameExceptText(out, chunk)
  {
    match reply
    case None => chunk
    case Some(content) => DecodeBatch(ReplyLines(content), chunk)
  }

  /** What each batch appends, batch by batch. */
  function BatchOutputs<F(==)>(chunks: seq<seq<Entry<F>>>, complete: Completion): (outs: seq<seq<Entry<F>>>)
    ensures |outs| == |chunks|
    ensures forall i :: 0 <= i < |chunks| ==> outs[i] == BatchOutput(chunks[i], complete(i))
  {
    seq(|chunks|, i requires 0 <= i < |chunks| => BatchOutput(chunks[i], complete(i)))
  }

  /** The array `translateSubtitles` resolves to when given an array: the
      batches' outputs one after the other. It has as many entries as the
      input, and entry i agrees with input entry i on every field but `text`. */
  function Translated<F(==)>(items: seq<Entry<F>>, size: int, complete: Completion): (out: seq<Entry<F>>)
    requires size >= 1 || |items| == 0
    ensures SameExceptText(out, items)
  {
    var chunks := Chunks(items, size);
    FlattenSameExceptText(BatchOutputs(chunks, complete), chunks);
    ChunksFlatten(items, size);
    Flatten(BatchOutputs(chunks, complete))
  }

  /** `translateSubtitles(subs, batchSize)`: throws for a non-array, and
      otherwise resolves to one entry per input entry, in input order, each
      differing from its source entry at most in `text`. */
  method TranslateSubtitles<F(==)>(subs: Subs<F>, batchSize: Option<int>, complete: Completion)
    returns (r: Result<seq<Entry<F>>, Error>)
    requires subs.Array? && |subs.items| > 0 ==> BatchSize(batchSize) >= 1
    ensures subs.NotArray? <==> r == Failure(SubsNotAnArray)
    ensures subs.Array? ==> r == Success(Translated(subs.items, BatchSize(batchSize), complete))
    ensures subs.Array? ==> SameExceptText(r.value, subs.items)
  {
    if subs.NotArray? {
      return Failure(SubsNotAnArray);
    }
    var size := BatchSize(batchSize);
    var chunks := ChunkArray(subs.items, size);
    var allTranslated: seq<Entry<F>> := [];
    for i := 0 to |chunks|
      invariant allTranslated == Flatten(BatchOutputs(chunks, complete)[..i])
    {
      OutputsStep(chunks, complete, i);
      allTranslated := TranslateBatch(allTranslated, chunks[i], complete(i));
    }
    assert BatchOutputs(chunks, complete)[..|chunks|] == BatchOutputs(chunks, complete);
    return Success(allTranslated);
  }

  /** One pass of the batch loop: the `try` that sends the batch and pushes
      the decoded entries, or the `catch` that pushes the batch unchanged.
      `reply` is what the completion call for this batch returned (`None`
      when it threw). */
  method TranslateBatch<F(==)>(allTranslated: seq<Entry<F>>, chunk: seq<Entry<F>>, reply: Option<string>)
    returns (pushed: seq<Entry<F>>)
    ensures pushed == allTranslated + BatchOutput(chunk, reply)
  {
    var numberedLines := EncodeBatch(chunk);  // the user message of the call
    match reply
    case Some(content) =>
      var translatedLines := ReplyLines(content);
      pushed := PushDecoded(allTranslated, chunk, translatedLines);
    case None =>
      pushed := PushOriginals(allTranslated, chunk);
  }

  /** Batch i's output follows the outputs of the batches before it. */
  lemma OutputsStep<F>(chunks: seq<seq<Entry<F>>>, complete: Completion, i: nat)
    requires i < |chunks|
    ensures Flatten(BatchOutputs(chunks, complete)[..i + 1])
      == Flatten(BatchOutputs(chunks, complete)[..i]) + BatchOutput(chunks[i], complete(i))
  {
    var outs := BatchOutputs(chunks, complete);
    assert outs[..i + 1] == outs[..i] + [outs[i]];
    FlattenSnoc(outs[..i], outs[i]);
  }

  /** The `chunk.forEach` of a successful call: pushes, for each entry in
      batch order, the entry decoded from the reply lines. */
  method PushDecoded<F>(allTranslated: seq<Entry<F>>, chunk: seq<Entry<F>>, translatedLines: seq<string>)
    returns (pushed: seq<Entry<F>>)
    ensures pushed == allTranslated + DecodeBatch(translatedLines, chunk)
  {
    pushed := allTranslated;
    for index := 0 to |chunk|
      invariant pushed == allTranslated + DecodeBatch(translatedLines, chunk[..index])
    {
      MapIndexedSnoc(chunk, (k: nat, item: Entry<F>) => DecodeEntry(translatedLines, item, k + 1), index);
      pushed := pushed + [DecodeEntry(translatedLines, chunk[index], index + 1)];
    }
    assert chunk[..|chunk|] == chunk;
  }

  /** The `chunk.forEach` of the catch branch: pushes the batch's own entries. */
  method PushOriginals<F>(allTranslated: seq<Entry<F>>, chunk: seq<Entry<F>>) returns (pushed: seq<Entry<F>>)
    ensures pushed == allTranslated + chunk
  {
    pushed := allTranslated;
    for index := 0 to |chunk|
      invariant pushed == allTranslated + chunk[..index]
    {
      assert chunk[..index + 1] == chunk[..index] + [chunk[index]];
      pushed := pushed + [chunk[index]];
    }
    assert chunk[..|chunk|] == chunk;
  }

  /** Visiting one more element appends its value. */
  lemma MapIndexedSnoc<A, B>(xs: seq<A>, f: (nat, A) -> B, k: nat)
    requires k < |xs|
    ensures MapIndexed(xs[..k + 1], f) == MapIndexed(xs[..k], f) + [f(k, xs[k])]
  {
    var a := MapIndexed(xs[..k + 1], f);
    var b := MapIndexed(xs[..k], f) + [f(k, xs[k])];
    forall j | 0 <= j < k + 1 ensures a[j] == b[j] {
      if j < k {
        assert xs[..k + 1][j] == xs[..k][j];
      }
    }
  }

  // ---------------------------------------------------------------------------
  // Lemmas: chunking

  /** Concatenating the chunks gives back the array, in order. */
  lemma {:induction false} ChunksFlatten<T>(a: seq<T>, size: int)
    requires size >= 1 || |a| == 0
    ensures Flatten(Chunks(a, size)) == a
    decreases |a|
  {
    if |a| > 0 {
      var end := if size < |a| then size else |a|;
      ChunksFlatten(a[end..], size);
      assert a[..end] + a[end..] == a;
    }
  }

  /** With a positive size there are ceil(n / size) chunks, none empty, none
      longer than `size`, and all but the last exactly `size` long. */
  lemma {:induction false} ChunksShape<T>(a: seq<T>, size: int)
    requires size >= 1
    ensures |Chunks(a, size)| == (|a| + size - 1) / size
    ensures forall i :: 0 <= i < |Chunks(a, size)| ==> 1 <= |Chunks(a, size)[i]| <= size
    ensures forall i :: 0 <= i < |Chunks(a, size)| - 1 ==> |Chunks(a, size)[i]| == size
    decreases |a|
  {
    if |a| > 0 {
      var end := if size < |a| then size else |a|;
      var rest := Chunks(a[end..], size);
      ChunksShape(a[end..], size);
      assert Chunks(a, size) == [a[..end]] + rest;
      if size < |a| {
        assert (|a| + size - 1) / size == (|a| - size + size - 1) / size + 1 by {
          DivShift(|a| - size + size - 1, size);
        }
      } else {
        assert rest == [];
        assert (|a| + size - 1) / size == 1 by {
          DivOne(|a| + size - 1, size);
        }
      }
    }
  }

  lemma DivShift(x: int, d: int)
    requires d >= 1 && x >= 0
    ensures (x + d) / d == x / d + 1
  {
    var q := x / d;
    assert (q + 1) * d == q * d + d;
    DivUnique(x + d, d, q + 1);
  }

  lemma DivOne(x: int, d: int)
    requires d <= x < 2 * d
    ensures x / d == 1
  {
    DivUnique(x, d, 1);
  }

  /** `q` is the quotient of `x` by `d` when `x` lies in `[q * d, q * d + d)`. */
  lemma DivUnique(x: int, d: int, q: int)
    requires d >= 1 && q * d <= x < q * d + d
    ensures x / d == q
  {
    var q' := x / d;
    assert q' * d <= x < q' * d + d;
    if q' < q {
      assert (q' + 1) * d == q' * d + d;
      MulMonotone(q' + 1, q, d);
    } else if q' > q {
      assert (q + 1) * d == q * d + d;
      MulMonotone(q + 1, q', d);
    }
  }

  lemma MulMonotone(a: int, b: int, d: int)
    requires a <= b && d >= 0
    ensures a * d <= b * d
  {
    assert b * d - a * d == (b - a) * d;
  }

  /** Chunk `i` is the slice `array.slice(i * size, i * size + size)`. */
  lemma {:induction false} ChunkAt<T>(a: seq<T>, size: int, i: nat)
    requires size >= 1 && i < |Chunks(a, size)|
    ensures i * size < |a|
    ensures Chunks(a, size)[i] == a[i * size .. Min(i * size + size, |a|)]
    decreases |a|
  {
    var end := if size < |a| then size else |a|;
    if i > 0 {
      ChunkAt(a[end..], size, i - 1);
      assert end == size;
      assert (i - 1) * size + size == i * size;
      assert a[end..][(i - 1) * size .. Min((i - 1) * size + size, |a| - end)]
        == a[i * size .. Min(i * size + size, |a|)];
    }
  }

  // ---------------------------------------------------------------------------
  // Lemmas: the payload and the reply

  /** When no entry text holds a newline, the payload has exactly one line
      per entry, line k being `${k + 1}. ${text}`. */
  lemma EncodedLines<F>(chunk: seq<Entry<F>>)
    requires |chunk| >= 1
    requires forall k :: 0 <= k < |chunk| ==> '\n' !in chunk[k].text
    ensures var lines := Split(EncodeBatch(chunk), '\n');
      |lines| == |chunk| &&
      forall k :: 0 <= k < |chunk| ==> lines[k] == Digits(k + 1) + ". " + chunk[k].text
  {
    var lines := NumberedLines(chunk);
    forall k | 0 <= k < |chunk| ensures '\n' !in lines[k] {
      NoNewlineInNumberedLine(k + 1, chunk[k].text);
    }
    SplitJoin(lines, '\n');
  }

  lemma NoNewlineInNumberedLine(n: nat, text: string)
    requires '\n' !in text
    ensures '\n' !in NumberedLine(n, text)
  {
    var d := Digits(n);
    assert forall k :: 0 <= k < |d| ==> d[k] != '\n';
  }

  /** A line that starts with a marker has digits up to the marker's period. */
  lemma MarkerShape(m: nat, rest: string)
    ensures forall i :: 0 <= i < |Digits(m)| ==> IsDigit((Marker(m) + rest)[i])
    ensures (Marker(m) + rest)[|Digits(m)|] == '.'
  {
  }

  lemma StartsWithAt(s: string, p: string, i: nat)
    requires StartsWith(s, p) && i < |p|
    ensures s[i] == p[i]
  {
    assert s[..|p|][i] == s[i];
  }

  /** A line `${m}.` followed by anything does not answer entry `n` unless m == n. */
  lemma MarkerDistinct(m: nat, n: nat, rest: string)
    requires m != n
    ensures !StartsWith(Marker(m) + rest, Marker(n))
  {
    var s := Marker(m) + rest;
    var dm, dn := Digits(m), Digits(n);
    MarkerShape(m, rest);
    MarkerShape(n, []);
    if StartsWith(s, Marker(n)) {
      if |dn| < |dm| {
        StartsWithAt(s, Marker(n), |dn|);
        assert false;
      } else if |dn| > |dm| {
        StartsWithAt(s, Marker(n), |dm|);
        assert false;
      } else {
        assert dm == s[..|dm|] == dn;
        DigitsInjective(m, n);
      }
    }
  }

  /** The number of a well-formed numbered line is stripped exactly. */
  lemma StripNumberedLine(n: nat, text: string)
    requires text != [] && !IsWhitespace(text[0])
    ensures StripNumber(NumberedLine(n, text)) == text
  {
    var line := NumberedLine(n, text);
    var d := Digits(n);
    assert line[..|d|] == d;
    assert line[|d|] == '.';
    assert LeadingDigits(line) == |d|;
    var rest := line[|d| + 1..];
    assert rest == " " + text;
    assert LeadingWhitespace(rest) == 1;
    assert rest[1..] == text;
  }

  /** An entry text a reply line can carry back unchanged: non-empty, no
      whitespace at either end, no newline. */
  predicate Transmittable(text: string) {
    text != [] && Unpadded(text) && '\n' !in text
  }

  /** A reply made of the numbered lines of transmittable texts splits back
      into exactly those lines. */
  lemma ReplyLinesOfEncoded<F>(batch: seq<Entry<F>>)
    requires |batch| >= 1
    requires forall k :: 0 <= k < |batch| ==> Transmittable(batch[k].text)
    ensures ReplyLines(EncodeBatch(batch)) == NumberedLines(batch)
  {
    var lines := NumberedLines(batch);
    forall k | 0 <= k < |lines| ensures '\n' !in lines[k] && lines[k] != [] {
      NoNewlineInNumberedLine(k + 1, batch[k].text);
    }
    JoinEnds(lines, '\n');
    TrimUnpadded(EncodeBatch(batch));
    SplitJoin(lines, '\n');
  }

  /** `trim` keeps a line's leading marker: the digits and the period are not
      whitespace. */
  lemma TrimKeepsMarker(m: nat, rest: string) returns (kept: string)
    ensures Trim(Marker(m) + rest) == Marker(m) + kept
  {
    var line := Marker(m) + rest;
    MarkerShape(m, rest);
    var lead := LeadingWhitespace(line);
    if lead > 0 {
      assert false;
    }
    assert line[lead..] == line;
    var trail := TrailingWhitespace(line);
    if |line| - trail <= |Digits(m)| {
      assert false;
    }
    kept := line[|Marker(m)|..|line| - trail];
    assert line[..|line| - trail] == Marker(m) + kept;
  }

  /** The numbered line of any text answers its own number and no other. */
  lemma NumberedLineAnswersOwn(m: nat, n: nat, text: string)
    ensures AnswersEntry(NumberedLine(m, text), n) <==> m == n
  {
    assert NumberedLine(m, text) == Marker(m) + (" " + text);
    var kept := TrimKeepsMarker(m, " " + text);
    if m == n {
      assert (Marker(m) + kept)[..|Marker(m)|] == Marker(m);
    } else {
      MarkerDistinct(m, n, kept);
    }
  }

  /** The numbered line of a transmittable text carries back that text. */
  lemma NumberedLineText(n: nat, text: string, original: string)
    requires Transmittable(text)
    ensures AnswerText(NumberedLine(n, text), original) == text
  {
    StripNumberedLine(n, text);
    TrimUnpadded(text);
  }

  /** In the numbered lines of transmittable texts, line k is the first to
      answer entry k + 1, and it carries back text k. */
  lemma NumberedLineAnswers<F>(batch: seq<Entry<F>>, k: nat, original: string)
    requires k < |batch|
    requires forall j :: 0 <= j < |batch| ==> Transmittable(batch[j].text)
    ensures FirstAnswer(NumberedLines(batch), k + 1, k)
    ensures AnswerText(NumberedLines(batch)[k], original) == batch[k].text
  {
    var lines := NumberedLines(batch);
    forall j | 0 <= j <= k ensures AnswersEntry(lines[j], k + 1) <==> j == k {
      NumberedLineAnswersOwn(j + 1, k + 1, batch[j].text);
    }
    NumberedLineText(k + 1, batch[k].text, original);
  }

  /** Round trip: a reply that numbers the batch's translations exactly as
      the payload numbers its entries decodes to those translations, each
      carried by the entry it belongs to. */
  lemma ReplyRoundTrip<F>(chunk: seq<Entry<F>>, translated: seq<Entry<F>>)
    requires |chunk| >= 1 && SameExceptText(translated, chunk)
    requires forall k :: 0 <= k < |translated| ==> Transmittable(translated[k].text)
    ensures DecodeBatch(ReplyLines(EncodeBatch(translated)), chunk) == translated
  {
    ReplyLinesOfEncoded(translated);
    var lines := NumberedLines(translated);
    forall k | 0 <= k < |chunk|
      ensures DecodeEntry(lines, chunk[k], k + 1) == translated[k]
    {
      NumberedLineAnswers(translated, k, chunk[k].text);
      DecodeEntryAnswered(lines, chunk[k], k + 1, k);
    }
  }

  /** The line whose leading whitespace hides its number from the strip (the
      pattern is anchored at the untrimmed line) keeps its `${n}.` prefix. */
  lemma IndentedAnswerKeepsNumber(line: string, n: nat, original: string)
    requires line != [] && IsWhitespace(line[0]) && AnswersEntry(line, n)
    ensures AnswerText(line, original) == Trim(line)
    ensures StartsWith(AnswerText(line, original), Marker(n))
  {
    assert LeadingDigits(line) == 0;
    assert StripNumber(line) == line;
  }

  // ---------------------------------------------------------------------------
  // Lemmas: the assembled output

  lemma {:induction false} FlattenSnoc<T>(pieces: seq<seq<T>>, p: seq<T>)
    ensures Flatten(pieces + [p]) == Flatten(pieces) + p
  {
    if |pieces| > 0 {
      FlattenSnoc(pieces[1..], p);
      assert (pieces + [p])[1..] == pieces[1..] + [p];
    }
  }

  /** Pieces that match other pieces except for texts flatten to a
      sequence that matches their flattening except for texts. */
  lemma {:induction false} FlattenSameExceptText<F>(outs: seq<seq<Entry<F>>>, srcs: seq<seq<Entry<F>>>)
    requires |outs| == |srcs|
    requires forall i :: 0 <= i < |srcs| ==> SameExceptText(outs[i], srcs[i])
    ensures SameExceptText(Flatten(outs), Flatten(srcs))
  {
    if |srcs| > 0 {
      FlattenSameExceptText(outs[1..], srcs[1..]);
      var o, s := Flatten(outs[1..]), Flatten(srcs[1..]);
      forall i | 0 <= i < |Flatten(srcs)| ensures Flatten(outs)[i].fields == Flatten(srcs)[i].fields {
        if i < |srcs[0]| {
          assert Flatten(outs)[i] == outs[0][i];
        } else {
          assert Flatten(outs)[i] == o[i - |srcs[0]|];
        }
      }
    }
  }

  /** When every completion call throws, the output is the input itself. */
  lemma AllCallsFailKeepsInput<F>(items: seq<Entry<F>>, size: int, complete: Completion)
    requires size >= 1 || |items| == 0
    requires forall i :: complete(i) == None
    ensures Translated(items, size, complete) == items
  {
    var chunks := Chunks(items, size);
    assert BatchOutputs(chunks, complete) == chunks;
    ChunksFlatten(items, size);
  }

  /** The first `k` chunks together are the first `k * size` entries (all of
      them once `k` reaches the last chunk). */
  lemma {:induction false} ChunksPrefix<T>(a: seq<T>, size: int, k: nat)
    requires size >= 1 && k <= |Chunks(a, size)|
    ensures Flatten(Chunks(a, size)[..k]) == a[..Min(k * size, |a|)]
  {
    var chunks := Chunks(a, size);
    if k == 0 {
      assert chunks[..0] == [];
    } else {
      ChunksPrefix(a, size, k - 1);
      ChunkAt(a, size, k - 1);
      assert chunks[..k] == chunks[..k - 1] + [chunks[k - 1]];
      FlattenSnoc(chunks[..k - 1], chunks[k - 1]);
      assert (k - 1) * size + size == k * size;
      assert a[..Min((k - 1) * size, |a|)] + chunks[k - 1] == a[..Min(k * size, |a|)];
    }
  }

  /** Element `q` of piece `b` sits at `|Flatten(pieces[..b])| + q` of the flattening. */
  lemma {:induction false} FlattenAt<T>(pieces: seq<seq<T>>, b: nat, q: nat)
    requires b < |pieces| && q < |pieces[b]|
    ensures |Flatten(pieces[..b])| + q < |Flatten(pieces)|
    ensures Flatten(pieces)[|Flatten(pieces[..b])| + q] == pieces[b][q]
  {
    if b > 0 {
      FlattenAt(pieces[1..], b - 1, q);
      assert pieces[1..][..b - 1] == pieces[..b][1..];
      assert pieces[..b] == [pieces[0]] + pieces[..b][1..];
    } else {
      assert pieces[..0] == [];
    }
  }

  /** A position inside the array lies in some batch. */
  lemma BatchInRange<T>(a: seq<T>, size: int, b: nat)
    requires size >= 1 && b * size < |a|
    ensures b < |Chunks(a, size)|
  {
    var chunks := Chunks(a, size);
    var K := |chunks|;
    ChunksPrefix(a, size, K);
    ChunksFlatten(a, size);
    assert chunks[..K] == chunks;
    if K <= b {
      MulMonotone(K, b, size);
      assert false;
    }
  }

  /** The batches before batch `b` hold `b * size` entries. */
  lemma EntriesBeforeBatch<T>(a: seq<T>, size: int, b: nat)
    requires size >= 1 && b * size < |a| && b <= |Chunks(a, size)|
    ensures |Flatten(Chunks(a, size)[..b])| == b * size
  {
    ChunksPrefix(a, size, b);
  }

  /** Pieces as long as other pieces, one by one, flatten to a sequence as
      long as theirs. */
  lemma {:induction false} FlattenLength<T, U>(xs: seq<seq<T>>, ys: seq<seq<U>>)
    requires |xs| == |ys| && forall i :: 0 <= i < |xs| ==> |xs[i]| == |ys[i]|
    ensures |Flatten(xs)| == |Flatten(ys)|
  {
    if |xs| > 0 {
      FlattenLength(xs[1..], ys[1..]);
    }
  }

  /** Pieces shaped like the chunks of `a` (one per chunk, each as long as
      its chunk) put element `q` of piece `b` at position `b * size + q` of
      their flattening: where entry `q` of chunk `b` sits in `a`. */
  lemma FlattenChunkAt<T, U>(a: seq<T>, size: int, outs: seq<seq<U>>, b: nat, q: nat)
    requires size >= 1 && q < size && b * size + q < |a|
    requires |outs| == |Chunks(a, size)|
    requires forall i :: 0 <= i < |outs| ==> |outs[i]| == |Chunks(a, size)[i]|
    ensures b < |outs| && q < |outs[b]| && b * size + q < |Flatten(outs)|
    ensures Flatten(outs)[b * size + q] == outs[b][q]
  {
    var chunks := Chunks(a, size);
    BatchInRange(a, size, b);
    ChunkAt(a, size, b);
    EntriesBeforeBatch(a, size, b);
    FlattenLength(outs[..b], chunks[..b]);
    FlattenAt(outs, b, q);
  }

  /** Entry `q` of batch `b` of the output is entry `q` of what batch `b`
      appended, and batch `b` is the input slice starting at `b * size`
      (ChunkAt): every batch's output sits exactly where its input was. */
  lemma TranslatedAt<F>(items: seq<Entry<F>>, size: int, complete: Completion, b: nat, q: nat)
    requires size >= 1 && q < size && b * size + q < |items|
    ensures b < |Chunks(items, size)| && q < |Chunks(items, size)[b]|
    ensures |Translated(items, size, complete)| == |items|
    ensures Translated(items, size, complete)[b * size + q] == BatchOutput(Chunks(items, size)[b], complete(b))[q]
  {
    var chunks := Chunks(items, size);
    var outs := BatchOutputs(chunks, complete);
    FlattenChunkAt(items, size, outs, b, q);
  }

  /** Entry `q` of chunk `b` is entry `b * size + q` of the array. */
  lemma ChunkEntry<T>(a: seq<T>, size: int, b: nat, q: nat)
    requires size >= 1 && q < size && b * size + q < |a|
    ensures b < |Chunks(a, size)| && q < |Chunks(a, size)[b]|
    ensures Chunks(a, size)[b][q] == a[b * size + q]
  {
    BatchInRange(a, size, b);
    ChunkAt(a, size, b);
  }

  /** A position splits into its batch and its place in the batch. */
  lemma PositionSplit(p: nat, size: int)
    requires size >= 1
    ensures (p / size) * size + p % size == p && 0 <= p % size < size
  {
  }

  /** An entry of a batch whose completion call threw comes out exactly as
      it went in; entry `p` belongs to batch `p / size`. */
  lemma FailedBatchKeepsEntries<F>(items: seq<Entry<F>>, size: int, complete: Completion, p: nat)
    requires size >= 1 && p < |items| && complete(p / size).None?
    ensures |Translated(items, size, complete)| == |items|
    ensures Translated(items, size, complete)[p] == items[p]
  {
    var b, q := p / size, p % size;
    PositionSplit(p, size);
    TranslatedAt(items, size, complete, b, q);
    ChunkEntry(items, size, b, q);
    var chunk := Chunks(items, size)[b];
    assert BatchOutput(chunk, None) == chunk;
  }

  /** Translation never blanks a subtitle: an entry whose text is non-empty
      comes out with a non-empty text, whatever the completion replies. */
  lemma TranslatedNeverEmpties<F>(items: seq<Entry<F>>, size: int, complete: Completion, p: nat)
    requires size >= 1 && p < |items| && items[p].text != []
    ensures |Translated(items, size, complete)| == |items|
    ensures Translated(items, size, complete)[p].text != []
  {
    var b, q := p / size, p % size;
    PositionSplit(p, size);
    TranslatedAt(items, size, complete, b, q);
    ChunkEntry(items, size, b, q);
    var chunk := Chunks(items, size)[b];
    match complete(b)
    case None =>
    case Some(content) =>
      DecodeEntryNeverEmpties(ReplyLines(content), chunk[q], q + 1);
  }
}
