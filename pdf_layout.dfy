/**
 * Text-to-PDF layout shared by the DOCX->PDF and TXT->PDF converters:
 * the text is split into lines on "\n", each line into words on " ",
 * and the words are wrapped greedily into drawn lines that advance a
 * vertical cursor down the page, opening a new page near the bottom margin.
 *
 * Font metrics are an uninterpreted `measure` function, and which characters
 * the font can encode is a predicate; the page size is a parameter. The
 * buffer the source builds (`currentLine`) is `Buffer` of
 * the words taken so far, each followed by one space.
 */
module PdfLayout {
  import opened Wrappers
  import opened Text
  import opened Types

  const FontSize: real := 12.0
  const Margin: real := 50.0
  const LineHeight: real := FontSize * 1.2

  /** The printable width the wrap compares against. */
  function Limit(width: real): real {
    width - 2.0 * Margin
  }

  /** The line buffer after taking `words`: each word followed by a space. */
  function Buffer(words: seq<string>): (r: string)
    ensures |r| >= |words|
  {
    if words == [] then "" else Buffer(words[..|words| - 1]) + words[|words| - 1] + " "
  }

  /** Adding a word to the buffer appends it and a space. */
  lemma BufferSnoc(words: seq<string>, w: string)
    ensures Buffer(words + [w]) == Buffer(words) + w + " "
  {
    var all := words + [w];
    assert all[..|all| - 1] == words && all[|all| - 1] == w;
  }

  lemma BufferSingle(w: string)
    ensures Buffer([w]) == w + " "
  {
    assert [w][..0] == [];
  }

  /** Concatenation of all chunks, in order. */
  function Flatten(chunks: seq<seq<string>>): seq<string> {
    if chunks == [] then [] else chunks[0] + Flatten(chunks[1..])
  }

  lemma {:induction false} FlattenSnoc(chunks: seq<seq<string>>, c: seq<string>)
    ensures Flatten(chunks + [c]) == Flatten(chunks) + c
  {
    if chunks == [] {
      assert [] + [c] == [c];
    } else {
      assert (chunks + [c])[1..] == chunks[1..] + [c];
      FlattenSnoc(chunks[1..], c);
    }
  }

  /** Adding `word` to the buffer `chunk` measures wider than the limit. */
  predicate Overflows(measure: string -> real, limit: real, chunk: seq<string>, word: string) {
    measure(Buffer(chunk + [word])) > limit
  }

  /**
   * The wrap loop: `done` are the flushed buffers, `cur` the words in the
   * current buffer. A word that would overflow a non-empty buffer flushes
   * it and starts the next one; otherwise it joins the current buffer.
   */
  function WrapRest(measure: string -> real, limit: real, done: seq<seq<string>>, cur: seq<string>, words: seq<string>): seq<seq<string>>
    decreases |words|
  {
    if words == [] then done + [cur]
    else if cur != [] && Overflows(measure, limit, cur, words[0]) then
      WrapRest(measure, limit, done + [cur], [words[0]], words[1..])
    else
      WrapRest(measure, limit, done, cur + [words[0]], words[1..])
  }

  /** One step of the wrap loop, at the word with index `j`. */
  lemma WrapAdvance(measure: string -> real, limit: real, done: seq<seq<string>>, cur: seq<string>, words: seq<string>, j: nat)
    requires j < |words|
    ensures WrapRest(measure, limit, done, cur, words[j..]) ==
      if cur != [] && Overflows(measure, limit, cur, words[j]) then
        WrapRest(measure, limit, done + [cur], [words[j]], words[j + 1..])
      else
        WrapRest(measure, limit, done, cur + [words[j]], words[j + 1..])
  {
    assert words[j..][0] == words[j] && words[j..][1..] == words[j + 1..];
  }

  /** The buffers one source line is drawn from, in order. */
  function Wrap(measure: string -> real, limit: real, words: seq<string>): seq<seq<string>> {
    WrapRest(measure, limit, [], [], words)
  }

  /** Every word added to a non-empty buffer kept it within the limit. */
  predicate Fits(measure: string -> real, limit: real, chunk: seq<string>) {
    forall p :: 2 <= p <= |chunk| ==> measure(Buffer(chunk[..p])) <= limit
  }

  /** No buffer could have taken the first word of the next one. */
  predicate Greedy(measure: string -> real, limit: real, chunks: seq<seq<string>>) {
    forall k :: 0 < k < |chunks| ==> chunks[k] != [] && Overflows(measure, limit, chunks[k - 1], chunks[k][0])
  }

  /** A chunking a greedy wrap could have produced. */
  predicate WellWrapped(measure: string -> real, limit: real, chunks: seq<seq<string>>) {
    (forall k :: 0 <= k < |chunks| ==> chunks[k] != [] && Fits(measure, limit, chunks[k]))
    && Greedy(measure, limit, chunks)
  }

  lemma WellWrappedSnoc(measure: string -> real, limit: real, done: seq<seq<string>>, cur: seq<string>)
    requires WellWrapped(measure, limit, done)
    requires cur != [] && Fits(measure, limit, cur)
    requires done != [] ==> Overflows(measure, limit, done[|done| - 1], cur[0])
    ensures WellWrapped(measure, limit, done + [cur])
  {
    var all := done + [cur];
    forall k | 0 < k < |all|
      ensures all[k] != [] && Overflows(measure, limit, all[k - 1], all[k][0])
    {
      if k < |done| {
        assert all[k - 1] == done[k - 1] && all[k] == done[k];
      }
    }
  }

  /** Adding a word that does not overflow keeps the buffer fitting. */
  lemma FitsSnoc(measure: string -> real, limit: real, cur: seq<string>, w: string)
    requires Fits(measure, limit, cur)
    requires cur != [] ==> !Overflows(measure, limit, cur, w)
    ensures Fits(measure, limit, cur + [w])
  {
    var c := cur + [w];
    forall p | 2 <= p <= |c| ensures measure(Buffer(c[..p])) <= limit {
      if p <= |cur| {
        assert c[..p] == cur[..p];
      } else {
        assert c[..p] == c;
      }
    }
  }

  /** The wrap loop loses or repeats no word. */
  lemma {:induction false} WrapRestFlatten(measure: string -> real, limit: real, done: seq<seq<string>>, cur: seq<string>, words: seq<string>)
    ensures Flatten(WrapRest(measure, limit, done, cur, words)) == Flatten(done) + cur + words
    decreases |words|
  {
    if words == [] {
      FlattenSnoc(done, cur);
      assert cur + words == cur;
    } else {
      var w, more := words[0], words[1..];
      assert [w] + more == words;
      if cur != [] && Overflows(measure, limit, cur, w) {
        WrapRestFlatten(measure, limit, done + [cur], [w], more);
        FlattenAfterFlush(done, cur, w, more, WrapRest(measure, limit, done + [cur], [w], more));
      } else {
        WrapRestFlatten(measure, limit, done, cur + [w], more);
        FlattenAfterGrow(done, cur, w, more, WrapRest(measure, limit, done, cur + [w], more));
      }
    }
  }

  /** Sequence algebra for `WrapRestFlatten` when the buffer is flushed. */
  lemma FlattenAfterFlush(done: seq<seq<string>>, cur: seq<string>, w: string, more: seq<string>, r: seq<seq<string>>)
    requires Flatten(r) == Flatten(done + [cur]) + [w] + more
    ensures Flatten(r) == Flatten(done) + cur + ([w] + more)
  {
    FlattenSnoc(done, cur);
    assert Flatten(done) + cur + [w] + more == Flatten(done) + cur + ([w] + more);
  }

  /** Sequence algebra for `WrapRestFlatten` when the word joins the buffer. */
  lemma FlattenAfterGrow(done: seq<seq<string>>, cur: seq<string>, w: string, more: seq<string>, r: seq<seq<string>>)
    requires Flatten(r) == Flatten(done) + (cur + [w]) + more
    ensures Flatten(r) == Flatten(done) + cur + ([w] + more)
  {
    assert Flatten(done) + (cur + [w]) + more == Flatten(done) + cur + ([w] + more);
  }

  /** The wrap loop keeps its buffers well wrapped. */
  lemma {:induction false} WrapRestWell(measure: string -> real, limit: real, done: seq<seq<string>>, cur: seq<string>, words: seq<string>)
    requires WellWrapped(measure, limit, done)
    requires cur == [] ==> done == [] && words != []
    requires Fits(measure, limit, cur)
    requires done != [] ==> Overflows(measure, limit, done[|done| - 1], cur[0])
    ensures WellWrapped(measure, limit, WrapRest(measure, limit, done, cur, words))
    decreases |words|
  {
    if words == [] {
      WellWrappedSnoc(measure, limit, done, cur);
    } else if cur != [] && Overflows(measure, limit, cur, words[0]) {
      WellWrappedSnoc(measure, limit, done, cur);
      WrapRestWell(measure, limit, done + [cur], [words[0]], words[1..]);
    } else {
      FitsSnoc(measure, limit, cur, words[0]);
      WrapRestWell(measure, limit, done, cur + [words[0]], words[1..]);
    }
  }

  /**
   * The greedy wrap of a line's words is well wrapped and its buffers hold
   * the words exactly once each, in order.
   */
  lemma WrapWellWrapped(measure: string -> real, limit: real, words: seq<string>)
    requires words != []
    ensures WellWrapped(measure, limit, Wrap(measure, limit, words))
    ensures Flatten(Wrap(measure, limit, words)) == words
  {
    WrapRestWell(measure, limit, [], [], words);
    WrapRestFlatten(measure, limit, [], [], words);
    assert Flatten([]) + [] + words == words;
  }

  /** Only a buffer holding a single word can measure wider than the limit. */
  lemma OnlySingleWordsOverflow(measure: string -> real, limit: real, words: seq<string>, k: nat)
    requires words != []
    requires k < |Wrap(measure, limit, words)|
    ensures var chunk := Wrap(measure, limit, words)[k];
      |chunk| >= 2 ==> measure(Buffer(chunk)) <= limit
  {
    WrapWellWrapped(measure, limit, words);
    var chunk := Wrap(measure, limit, words)[k];
    assert chunk[..|chunk|] == chunk;
  }

  /** A word that fits is added to the current buffer. */
  lemma GrowStep(measure: string -> real, limit: real, done: seq<seq<string>>, cur: seq<string>, x: seq<string>, tail: seq<string>)
    requires x != [] && Fits(measure, limit, cur + x)
    ensures WrapRest(measure, limit, done, cur, x + tail) == WrapRest(measure, limit, done, cur + [x[0]], x[1..] + tail)
  {
    var w := x[0];
    assert (x + tail)[0] == w && (x + tail)[1..] == x[1..] + tail;
    if cur != [] {
      assert (cur + x)[..|cur| + 1] == cur + [w];
      assert !Overflows(measure, limit, cur, w);
    }
  }

  /** A word that overflows a non-empty buffer flushes it and starts the next one. */
  lemma FlushStep(measure: string -> real, limit: real, done: seq<seq<string>>, cur: seq<string>, next: seq<string>, tail: seq<string>)
    requires cur != [] && next != [] && Overflows(measure, limit, cur, next[0])
    ensures WrapRest(measure, limit, done, cur, next + tail) == WrapRest(measure, limit, done + [cur], [next[0]], next[1..] + tail)
  {
    assert (next + tail)[0] == next[0] && (next + tail)[1..] == next[1..] + tail;
  }

  /** The chunks after the first of a well-wrapped chunking are well wrapped. */
  lemma WellWrappedTail(measure: string -> real, limit: real, all: seq<seq<string>>)
    requires all != [] && WellWrapped(measure, limit, all)
    ensures WellWrapped(measure, limit, all[1..])
  {
    var tail := all[1..];
    forall k | 0 < k < |tail| ensures tail[k] != [] && Overflows(measure, limit, tail[k - 1], tail[k][0]) {
      assert tail[k - 1] == all[k] && tail[k] == all[k + 1];
    }
  }

  /**
   * The wrap loop reproduces any well-wrapped chunking of its input: `cur`
   * has grown into the buffer `cur + x`, and `rest` follow it.
   */
  lemma {:induction false} WrapRestUnique(measure: string -> real, limit: real, done: seq<seq<string>>, cur: seq<string>,
                                          x: seq<string>, rest: seq<seq<string>>)
    requires WellWrapped(measure, limit, [cur + x] + rest)
    ensures WrapRest(measure, limit, done, cur, x + Flatten(rest)) == done + [cur + x] + rest
    decreases |x + Flatten(rest)|, 1
  {
    if x != [] {
      UniqueGrow(measure, limit, done, cur, x, rest);
    } else if rest == [] {
      assert x + Flatten(rest) == [] && cur + x == cur;
    } else {
      assert cur + x == cur && x + Flatten(rest) == Flatten(rest);
      UniqueFlush(measure, limit, done, cur, rest);
    }
  }

  /** `WrapRestUnique` while the current buffer is still growing. */
  lemma {:induction false} UniqueGrow(measure: string -> real, limit: real, done: seq<seq<string>>, cur: seq<string>,
                                      x: seq<string>, rest: seq<seq<string>>)
    requires x != [] && WellWrapped(measure, limit, [cur + x] + rest)
    ensures WrapRest(measure, limit, done, cur, x + Flatten(rest)) == done + [cur + x] + rest
    decreases |x + Flatten(rest)|, 0
  {
    var grown := cur + [x[0]];
    assert ([cur + x] + rest)[0] == cur + x;
    GrowStep(measure, limit, done, cur, x, Flatten(rest));
    assert cur + x == grown + x[1..];
    WrapRestUnique(measure, limit, done, grown, x[1..], rest);
  }

  /** `WrapRestUnique` when the current buffer is complete and the next one starts. */
  lemma {:induction false} UniqueFlush(measure: string -> real, limit: real, done: seq<seq<string>>, cur: seq<string>,
                                       rest: seq<seq<string>>)
    requires rest != [] && WellWrapped(measure, limit, [cur] + rest)
    ensures WrapRest(measure, limit, done, cur, Flatten(rest)) == done + [cur] + rest
    decreases |Flatten(rest)|, 0
  {
    var next := rest[0];
    var after := Flatten(rest[1..]);
    FlushBoundary(measure, limit, cur, rest);
    FlushStep(measure, limit, done, cur, next, after);
    WrapRestUnique(measure, limit, done + [cur], [next[0]], next[1..], rest[1..]);
    assert done + [cur] + [[next[0]] + next[1..]] + rest[1..] == done + [cur] + rest;
  }

  /** At the boundary between a buffer and the next: the overflow, and the next buffer's shape. */
  lemma FlushBoundary(measure: string -> real, limit: real, cur: seq<string>, rest: seq<seq<string>>)
    requires rest != [] && WellWrapped(measure, limit, [cur] + rest)
    ensures cur != [] && rest[0] != [] && Overflows(measure, limit, cur, rest[0][0])
    ensures Flatten(rest) == rest[0] + Flatten(rest[1..])
    ensures [[rest[0][0]] + rest[0][1..]] + rest[1..] == rest
    ensures WellWrapped(measure, limit, rest)
  {
    var all := [cur] + rest;
    assert all[0] == cur && all[1] == rest[0];
    assert [rest[0][0]] + rest[0][1..] == rest[0];
    assert all[1..] == rest;
    WellWrappedTail(measure, limit, all);
  }

  /**
   * The greedy wrap is the only well-wrapped way to break a line's words
   * into buffers: any chunking that keeps the words in order, fills every
   * multi-word buffer within the limit and could not have moved a word up
   * is the one the converter draws.
   */
  lemma WrapIsUnique(measure: string -> real, limit: real, chunks: seq<seq<string>>)
    requires chunks != [] && WellWrapped(measure, limit, chunks)
    ensures Wrap(measure, limit, Flatten(chunks)) == chunks
  {
    assert [] + chunks[0] == chunks[0];
    assert [chunks[0]] + chunks[1..] == chunks;
    WrapRestUnique(measure, limit, [], [], chunks[0], chunks[1..]);
  }

  /** A line made of one word is drawn from one buffer, however wide the word is. */
  lemma SingleWordNeverBreaks(measure: string -> real, limit: real, w: string)
    ensures Wrap(measure, limit, [w]) == [[w]]
  {
    assert [w][0] == w && [w][1..] == [];
    assert WrapRest(measure, limit, [], [], [w]) == WrapRest(measure, limit, [], [] + [w], []);
    assert [] + [w] == [w];
  }

  /** The texts drawn for flushed buffers: each trimmed, even when that leaves "". */
  function Flushed(chunks: seq<seq<string>>): seq<string> {
    if chunks == [] then [] else Flushed(chunks[..|chunks| - 1]) + [Trim(Buffer(chunks[|chunks| - 1]))]
  }

  lemma FlushedSnoc(chunks: seq<seq<string>>, c: seq<string>)
    ensures Flushed(chunks + [c]) == Flushed(chunks) + [Trim(Buffer(c))]
  {
    var all := chunks + [c];
    assert all[..|all| - 1] == chunks && all[|all| - 1] == c;
  }

  /** The texts drawn for one line's buffers: the last one only when it is not blank. */
  function LineOutput(chunks: seq<seq<string>>): seq<string> {
    if chunks == [] then []
    else
      var last := Buffer(chunks[|chunks| - 1]);
      Flushed(chunks[..|chunks| - 1]) + (if IsBlank(last) then [] else [Trim(last)])
  }

  /** A line's output: its flushed buffers, then the last buffer if it is not blank. */
  lemma LineOutputSnoc(done: seq<seq<string>>, last: seq<string>)
    ensures LineOutput(done + [last]) == Flushed(done) + (if IsBlank(Buffer(last)) then [] else [Trim(Buffer(last))])
  {
    var all := done + [last];
    assert all[..|all| - 1] == done && all[|all| - 1] == last;
  }

  /** Texts after a prefix, when one more buffer is flushed. */
  lemma FlushTexts(prefix: seq<string>, done: seq<seq<string>>, c: seq<string>)
    ensures prefix + Flushed(done + [c]) == prefix + Flushed(done) + [Trim(Buffer(c))]
  {
    var a, x := Flushed(done), [Trim(Buffer(c))];
    FlushedSnoc(done, c);
    assert prefix + (a + x) == prefix + a + x;
  }

  /** Texts after a prefix, when a line ends with the buffer `last`. */
  lemma LineTexts(prefix: seq<string>, done: seq<seq<string>>, last: seq<string>)
    ensures prefix + LineOutput(done + [last]) ==
      prefix + Flushed(done) + (if IsBlank(Buffer(last)) then [] else [Trim(Buffer(last))])
  {
    var a, x := Flushed(done), if IsBlank(Buffer(last)) then [] else [Trim(Buffer(last))];
    LineOutputSnoc(done, last);
    assert prefix + (a + x) == prefix + a + x;
  }

  /** The texts drawn for a whole document, line by line. */
  function DocOutput(measure: string -> real, limit: real, lines: seq<string>): seq<string> {
    if lines == [] then []
    else
      var last := lines[|lines| - 1];
      DocOutput(measure, limit, lines[..|lines| - 1]) + LineOutput(Wrap(measure, limit, Split(last, " ")))
  }

  /** The drawn texts, in drawing order. */
  function Texts(drawn: seq<DrawnLine>): seq<string> {
    if drawn == [] then [] else Texts(drawn[..|drawn| - 1]) + [drawn[|drawn| - 1].text]
  }

  /** `a` is drawn before `b`: on an earlier page, or a full line height above it. */
  predicate InOrder(a: DrawnLine, b: DrawnLine) {
    a.page < b.page || (a.page == b.page && b.y <= a.y - LineHeight)
  }

  /** The page is tall enough for one line between the margins. */
  predicate RoomForALine(height: real) {
    height >= 2.0 * Margin + LineHeight
  }

  /** A drawn line is on an existing page and within the margins. */
  predicate Placed(d: DrawnLine, pages: nat, height: real) {
    1 <= d.page <= pages && d.y <= height - Margin
    && (RoomForALine(height) ==> d.y >= Margin + LineHeight)
  }

  /**
   * The drawing state between two steps: every line drawn so far is placed,
   * they are in order, and the cursor (`pages`, `y`) is below the last one.
   */
  predicate Layout(drawn: seq<DrawnLine>, pages: nat, y: real, height: real) {
    pages >= 1 && y <= height - Margin
    && (forall k :: 0 <= k < |drawn| ==> Placed(drawn[k], pages, height))
    && (forall k :: 0 < k < |drawn| ==> InOrder(drawn[k - 1], drawn[k]))
    && (drawn != [] ==> InOrder(drawn[|drawn| - 1], DrawnLine(pages, y, "")))
  }

  /** Opening a new page keeps the drawing state. */
  lemma NewPageKeepsLayout(drawn: seq<DrawnLine>, pages: nat, y: real, height: real)
    requires Layout(drawn, pages, y, height)
    ensures Layout(drawn, pages + 1, height - Margin, height)
  {
  }

  /** Drawing at the cursor and moving it down one line keeps the drawing state. */
  lemma DrawKeepsLayout(drawn: seq<DrawnLine>, pages: nat, y: real, height: real, text: string)
    requires Layout(drawn, pages, y, height)
    requires RoomForALine(height) ==> y >= Margin + LineHeight
    ensures Layout(drawn + [DrawnLine(pages, y, text)], pages, y - LineHeight, height)
    ensures Texts(drawn + [DrawnLine(pages, y, text)]) == Texts(drawn) + [text]
  {
    var d := DrawnLine(pages, y, text);
    var all := drawn + [d];
    forall k | 0 < k < |all| ensures InOrder(all[k - 1], all[k]) {
      if k < |drawn| {
        assert all[k - 1] == drawn[k - 1] && all[k] == drawn[k];
      }
    }
    assert all[..|drawn|] == drawn;
  }

  /**
   * Drawing a full buffer in the middle of a line: the text is drawn at the
   * cursor, the cursor moves down one line, and a new page is opened when it
   * has come within a line of the bottom margin.
   */
  method FlushBuffer(drawn0: seq<DrawnLine>, pages0: nat, y0: real, height: real, text: string)
    returns (drawn: seq<DrawnLine>, pages: nat, y: real)
    requires Layout(drawn0, pages0, y0, height)
    requires RoomForALine(height) ==> y0 >= Margin + LineHeight
    ensures drawn == drawn0 + [DrawnLine(pages0, y0, text)]
    ensures Layout(drawn, pages, y, height)
    ensures RoomForALine(height) ==> y >= Margin + LineHeight
    ensures Texts(drawn) == Texts(drawn0) + [text]
  {
    DrawKeepsLayout(drawn0, pages0, y0, height, text);
    drawn := drawn0 + [DrawnLine(pages0, y0, text)];
    pages, y := pages0, y0 - LineHeight;
    if y < Margin + LineHeight {
      NewPageKeepsLayout(drawn, pages, y, height);
      pages := pages + 1;
      y := height - Margin;
    }
  }

  /**
   * One source line (lines 37-73 of the loop): its words are wrapped into
   * buffers, every full buffer is drawn and the cursor moved down (opening a
   * new page near the bottom margin), and the last buffer is drawn when it
   * is not blank.
   */
  method LayoutLine(words: seq<string>, measure: string -> real, limit: real, height: real,
                    pages0: nat, y0: real, drawn0: seq<DrawnLine>)
    returns (pages: nat, y: real, drawn: seq<DrawnLine>)
    requires Layout(drawn0, pages0, y0, height)
    requires RoomForALine(height) ==> y0 >= Margin + LineHeight
    ensures Layout(drawn, pages, y, height)
    ensures Texts(drawn) == Texts(drawn0) + LineOutput(Wrap(measure, limit, words))
  {
    pages, y, drawn := pages0, y0, drawn0;
    var cur := "";
    ghost var done: seq<seq<string>> := [];
    ghost var curWords: seq<string> := [];
    assert words[0..] == words;
    var j := 0;
    while j < |words|
      invariant 0 <= j <= |words|
      invariant cur == Buffer(curWords)
      invariant WrapRest(measure, limit, done, curWords, words[j..]) == Wrap(measure, limit, words)
      invariant Texts(drawn) == Texts(drawn0) + Flushed(done)
      invariant Layout(drawn, pages, y, height)
      invariant RoomForALine(height) ==> y >= Margin + LineHeight
    {
      WrapAdvance(measure, limit, done, curWords, words, j);
      pages, y, drawn, cur, done, curWords := AddWord(words[j], measure, limit, height, pages, y, drawn, cur, done, curWords, Texts(drawn0));
      j := j + 1;
    }
    assert words[|words|..] == [];
    assert Wrap(measure, limit, words) == done + [curWords];
    LineTexts(Texts(drawn0), done, curWords);
    y, drawn := DrawRemainder(drawn, pages, y, height, cur);
  }

  /**
   * One word of the wrap loop: it joins the buffer, unless the buffer is not
   * empty and would then measure wider than the limit; then the buffer is
   * drawn and the word starts the next one.
   */
  method AddWord(word: string, measure: string -> real, limit: real, height: real,
                 pages0: nat, y0: real, drawn0: seq<DrawnLine>, cur0: string,
                 ghost done0: seq<seq<string>>, ghost curWords0: seq<string>, ghost prefix: seq<string>)
    returns (pages: nat, y: real, drawn: seq<DrawnLine>, cur: string,
             ghost done: seq<seq<string>>, ghost curWords: seq<string>)
    requires cur0 == Buffer(curWords0) && Texts(drawn0) == prefix + Flushed(done0)
    requires Layout(drawn0, pages0, y0, height)
    requires RoomForALine(height) ==> y0 >= Margin + LineHeight
    ensures if curWords0 != [] && Overflows(measure, limit, curWords0, word)
      then done == done0 + [curWords0] && curWords == [word]
      else done == done0 && curWords == curWords0 + [word]
    ensures cur == Buffer(curWords) && Texts(drawn) == prefix + Flushed(done)
    ensures Layout(drawn, pages, y, height)
    ensures RoomForALine(height) ==> y >= Margin + LineHeight
  {
    BufferSnoc(curWords0, word);
    var testLine := cur0 + word + " ";
    if measure(testLine) > limit && cur0 != "" {
      pages, y, drawn, cur := StartBuffer(word, height, pages0, y0, drawn0, cur0, done0, curWords0, prefix);
      done := done0 + [curWords0];
      curWords := [word];
    } else {
      pages, y, drawn := pages0, y0, drawn0;
      done := done0;
      curWords := curWords0 + [word];
      cur := testLine;
    }
  }

  /** The overflow step of `AddWord`: the buffer is drawn and a new one starts with the word. */
  method StartBuffer(word: string, height: real, pages0: nat, y0: real, drawn0: seq<DrawnLine>, cur0: string,
                     ghost done0: seq<seq<string>>, ghost curWords0: seq<string>, ghost prefix: seq<string>)
    returns (pages: nat, y: real, drawn: seq<DrawnLine>, cur: string)
    requires cur0 == Buffer(curWords0) && Texts(drawn0) == prefix + Flushed(done0)
    requires Layout(drawn0, pages0, y0, height)
    requires RoomForALine(height) ==> y0 >= Margin + LineHeight
    ensures cur == Buffer([word]) && Texts(drawn) == prefix + Flushed(done0 + [curWords0])
    ensures Layout(drawn, pages, y, height)
    ensures RoomForALine(height) ==> y >= Margin + LineHeight
  {
    FlushTexts(prefix, done0, curWords0);
    drawn, pages, y := FlushBuffer(drawn0, pages0, y0, height, Trim(cur0));
    BufferSingle(word);
    cur := word + " ";
  }

  /** The end of a source line: what is left in the buffer is drawn unless it is blank. */
  method DrawRemainder(drawn0: seq<DrawnLine>, pages: nat, y0: real, height: real, cur: string)
    returns (y: real, drawn: seq<DrawnLine>)
    requires Layout(drawn0, pages, y0, height)
    requires RoomForALine(height) ==> y0 >= Margin + LineHeight
    ensures Layout(drawn, pages, y, height)
    ensures Texts(drawn) == Texts(drawn0) + (if IsBlank(cur) then [] else [Trim(cur)])
  {
    y, drawn := y0, drawn0;
    if !IsBlank(cur) {
      DrawKeepsLayout(drawn, pages, y, height, Trim(cur));
      drawn := drawn + [DrawnLine(pages, y, Trim(cur))];
      y := y - LineHeight;
    }
  }

  /**
   * `convertDocxToPdf` / `convertTxtToPdf` layout loop. Returns the number
   * of pages and the lines drawn, in drawing order.
   */
  method LayoutText(text: string, measure: string -> real, width: real, height: real)
    returns (pages: nat, drawn: seq<DrawnLine>)
    ensures pages >= 1
    ensures forall k :: 0 <= k < |drawn| ==> Placed(drawn[k], pages, height)
    ensures forall k :: 0 < k < |drawn| ==> InOrder(drawn[k - 1], drawn[k])
    ensures Texts(drawn) == DocOutput(measure, Limit(width), Split(text, "\n"))
  {
    var y;
    pages, y, drawn := LayoutLines(Split(text, "\n"), measure, Limit(width), height);
    LayoutPlacesLines(drawn, pages, y, height);
  }

  /** The loop over the source lines, from a fresh first page. */
  method LayoutLines(lines: seq<string>, measure: string -> real, limit: real, height: real)
    returns (pages: nat, y: real, drawn: seq<DrawnLine>)
    ensures Layout(drawn, pages, y, height)
    ensures Texts(drawn) == DocOutput(measure, limit, lines)
  {
    pages := 1;
    y := height - Margin;
    drawn := [];
    var i := 0;
    while i < |lines|
      invariant 0 <= i <= |lines|
      invariant Layout(drawn, pages, y, height)
      invariant Texts(drawn) == DocOutput(measure, limit, lines[..i])
    {
      DocOutputSnoc(measure, limit, lines, i);
      pages, y, drawn := LayoutSourceLine(lines[i], measure, limit, height, pages, y, drawn);
      i := i + 1;
    }
    assert lines[..|lines|] == lines;
  }

  /** What the drawing state says about the lines drawn: placed, and in order. */
  lemma LayoutPlacesLines(drawn: seq<DrawnLine>, pages: nat, y: real, height: real)
    requires Layout(drawn, pages, y, height)
    ensures pages >= 1
    ensures forall k :: 0 <= k < |drawn| ==> Placed(drawn[k], pages, height)
    ensures forall k :: 0 < k < |drawn| ==> InOrder(drawn[k - 1], drawn[k])
  {
  }

  /** One iteration of the `LayoutText` loop: a new page when the cursor is too low, then the line. */
  method LayoutSourceLine(line: string, measure: string -> real, limit: real, height: real,
                          pages0: nat, y0: real, drawn0: seq<DrawnLine>)
    returns (pages: nat, y: real, drawn: seq<DrawnLine>)
    requires Layout(drawn0, pages0, y0, height)
    ensures Layout(drawn, pages, y, height)
    ensures Texts(drawn) == Texts(drawn0) + LineOutput(Wrap(measure, limit, Split(line, " ")))
  {
    pages, y := pages0, y0;
    if y < Margin + LineHeight {
      NewPageKeepsLayout(drawn0, pages, y, height);
      pages := pages + 1;
      y := height - Margin;
    }
    pages, y, drawn := LayoutLine(Split(line, " "), measure, limit, height, pages, y, drawn0);
  }

  /** The document output grows line by line. */
  lemma DocOutputSnoc(measure: string -> real, limit: real, lines: seq<string>, i: nat)
    requires i < |lines|
    ensures DocOutput(measure, limit, lines[..i + 1]) ==
      DocOutput(measure, limit, lines[..i]) + LineOutput(Wrap(measure, limit, Split(lines[i], " ")))
  {
    assert lines[..i + 1][..i] == lines[..i];
  }

  /** Whitespace-only words make a whitespace-only buffer. */
  lemma {:induction false} BufferAllSpace(words: seq<string>)
    requires forall k :: 0 <= k < |words| ==> AllSpace(words[k])
    ensures AllSpace(Buffer(words))
  {
    if words != [] {
      var init := words[..|words| - 1];
      var w := words[|words| - 1];
      forall k | 0 <= k < |init| ensures AllSpace(init[k]) {
        assert init[k] == words[k];
      }
      BufferAllSpace(init);
      var a := Buffer(init);
      var b := a + w + " ";
      forall i | 0 <= i < |b| ensures IsSpace(b[i]) {
        if i < |a| {
          assert b[i] == a[i];
        } else if i < |a| + |w| {
          assert b[i] == w[i - |a|];
        }
      }
    }
  }

  /** Every word of every chunk is one of the flattened words. */
  lemma {:induction false} FlattenMember(chunks: seq<seq<string>>, m: nat, p: nat)
    requires m < |chunks| && p < |chunks[m]|
    ensures chunks[m][p] in Flatten(chunks)
  {
    if m == 0 {
      assert Flatten(chunks)[p] == chunks[0][p];
    } else {
      FlattenMember(chunks[1..], m - 1, p);
    }
  }

  /** Flushed blank buffers are drawn as empty texts, one per buffer. */
  lemma {:induction false} FlushedBlank(chunks: seq<seq<string>>)
    requires forall k :: 0 <= k < |chunks| ==> IsBlank(Buffer(chunks[k]))
    ensures |Flushed(chunks)| == |chunks|
    ensures forall k :: 0 <= k < |chunks| ==> Flushed(chunks)[k] == ""
  {
    if chunks != [] {
      var init := chunks[..|chunks| - 1];
      forall k | 0 <= k < |init| ensures IsBlank(Buffer(init[k])) {
        assert init[k] == chunks[k];
      }
      FlushedBlank(init);
    }
  }

  /**
   * A whitespace-only line never draws visible text: every buffer it fills
   * is drawn as "" except the last, which is not drawn. In particular a
   * blank line whose buffer never overflows draws nothing and leaves the
   * cursor where it was.
   */
  lemma BlankLineDrawsNoText(measure: string -> real, limit: real, line: string)
    requires AllSpace(line)
    ensures var chunks := Wrap(measure, limit, Split(line, " "));
      var out := LineOutput(chunks);
      |out| == |chunks| - 1 && forall k :: 0 <= k < |out| ==> out[k] == ""
  {
    var words := Split(line, " ");
    SplitPiecesAllSpace(line, " ");
    var chunks := Wrap(measure, limit, words);
    WrapWellWrapped(measure, limit, words);
    forall m | 0 <= m < |chunks| ensures IsBlank(Buffer(chunks[m])) {
      forall p | 0 <= p < |chunks[m]| ensures AllSpace(chunks[m][p]) {
        FlattenMember(chunks, m, p);
      }
      BufferAllSpace(chunks[m]);
    }
    var init := chunks[..|chunks| - 1];
    forall k | 0 <= k < |init| ensures IsBlank(Buffer(init[k])) {
      assert init[k] == chunks[k];
    }
    FlushedBlank(init);
  }

  // ---------------------------------------------------------------------
  // What the font is asked to encode
  // ---------------------------------------------------------------------

  /** Each word followed by a space, in order: the buffer `Buffer` builds, read from the front. */
  function Spaced(words: seq<string>): string {
    if words == [] then "" else words[0] + " " + Spaced(words[1..])
  }

  /** The words of a line, each followed by a space, spell the line and a space. */
  lemma {:induction false} SpacedSplit(line: string)
    ensures Spaced(Split(line, " ")) == line + " "
    decreases |line|
  {
    var i := IndexOf(line, " ");
    if i < 0 {
      assert Split(line, " ") == [line];
    } else {
      var head, rest := line[..i], line[i + 1..];
      SplitAt(line, " ");
      AroundIndexOf(line, " ");
      SpacedSplit(rest);
      SpacedWord(head, rest, Split(rest, " "));
    }
  }

  lemma SpacedWord(head: string, rest: string, words: seq<string>)
    requires Spaced(words) == rest + " "
    ensures Spaced([head] + words) == head + " " + rest + " "
  {
    assert ([head] + words)[1..] == words;
  }

  /**
   * Everything the layout measures, in order: for each line and each of its
   * words, the word followed by a space. Each measured string is the buffer
   * so far (already measured) and the next word and a space, so the first
   * character the font cannot encode is met in this order.
   */
  function Measured(lines: seq<string>): string {
    if lines == [] then "" else Spaced(Split(lines[0], " ")) + Measured(lines[1..])
  }

  /** The text with every line break read as a space. */
  function LineBreaksAsSpaces(text: string): (r: string)
    ensures |r| == |text|
  {
    if text == [] then [] else [if text[0] == '\n' then ' ' else text[0]] + LineBreaksAsSpaces(text[1..])
  }

  /** Each character is kept, except a line break, which becomes a space. */
  lemma {:induction false} SpacesAt(text: string, k: nat)
    requires k < |text|
    ensures LineBreaksAsSpaces(text)[k] == if text[k] == '\n' then ' ' else text[k]
    decreases k
  {
    if k > 0 {
      SpacesAt(text[1..], k - 1);
    }
  }

  lemma SpacesAppend(a: string, b: string)
    ensures LineBreaksAsSpaces(a + b) == LineBreaksAsSpaces(a) + LineBreaksAsSpaces(b)
  {
    var r, ra, rb := LineBreaksAsSpaces(a + b), LineBreaksAsSpaces(a), LineBreaksAsSpaces(b);
    forall k | 0 <= k < |a + b| ensures r[k] == (ra + rb)[k] {
      SpacesAt(a + b, k);
      if k < |a| {
        SpacesAt(a, k);
      } else {
        SpacesAt(b, k - |a|);
        assert (a + b)[k] == b[k - |a|];
      }
    }
  }

  /** A text without line breaks is its own reading. */
  lemma SpacesWithoutBreaks(text: string)
    requires forall k :: 0 <= k < |text| ==> !OccursAt(text, "\n", k)
    ensures LineBreaksAsSpaces(text) == text
  {
    forall k | 0 <= k < |text| ensures LineBreaksAsSpaces(text)[k] == text[k] {
      assert !OccursAt(text, "\n", k) && text[k..k + 1] == [text[k]];
      SpacesAt(text, k);
    }
  }

  /** The part of the text before its first line break has no line break. */
  lemma HeadWithoutBreaks(text: string, i: int)
    requires 0 <= i <= |text| && forall k :: 0 <= k < i ==> !OccursAt(text, "\n", k)
    ensures LineBreaksAsSpaces(text[..i]) == text[..i]
  {
    forall k | 0 <= k < i ensures !OccursAt(text[..i], "\n", k) {
      assert !OccursAt(text, "\n", k);
      if k + 1 <= i {
        assert text[..i][k..k + 1] == text[k..k + 1];
      }
    }
    SpacesWithoutBreaks(text[..i]);
  }

  lemma MeasuredCons(line: string, lines: seq<string>)
    ensures Measured([line] + lines) == Spaced(Split(line, " ")) + Measured(lines)
  {
    assert ([line] + lines)[1..] == lines;
  }

  /** A line without breaks, a break and the rest read as the line, a space and the rest's reading. */
  lemma SpacesBreak(head: string, rest: string)
    requires LineBreaksAsSpaces(head) == head
    ensures LineBreaksAsSpaces(head + "\n" + rest) == head + " " + LineBreaksAsSpaces(rest)
  {
    SpacesAppend(head + "\n", rest);
    SpacesAppend(head, "\n");
    SpacesAt("\n", 0);
  }

  /** A line, its break and the rest: measured as the line, a space and the rest's measure. */
  lemma MeasuredBreak(head: string, rest: string, lines: seq<string>)
    requires LineBreaksAsSpaces(head) == head
    requires Measured(lines) == LineBreaksAsSpaces(rest) + " "
    ensures Measured([head] + lines) == LineBreaksAsSpaces(head + "\n" + rest) + " "
  {
    MeasuredCons(head, lines);
    SpacedSplit(head);
    SpacesBreak(head, rest);
  }

  /** The layout measures every character of the text, line breaks read as spaces, and one space more. */
  lemma {:induction false} MeasuredIsText(text: string)
    ensures Measured(Split(text, "\n")) == LineBreaksAsSpaces(text) + " "
    decreases |text|
  {
    var i := IndexOf(text, "\n");
    if i < 0 {
      SpacedSplit(text);
      SpacesWithoutBreaks(text);
    } else {
      var head, rest := text[..i], text[i + 1..];
      SplitAt(text, "\n");
      AroundIndexOf(text, "\n");
      MeasuredIsText(rest);
      HeadWithoutBreaks(text, i);
      MeasuredBreak(head, rest, Split(rest, "\n"));
    }
  }

  /** `s[k]` cannot be encoded, and every character before it can. */
  predicate FirstBadAt(s: string, encodes: char -> bool, k: int) {
    0 <= k < |s| && !encodes(s[k]) && forall j :: 0 <= j < k ==> encodes(s[j])
  }

  /** The first character of `s` the font cannot encode, if any. */
  function FirstUnencodable(s: string, encodes: char -> bool): (r: Option<char>)
    ensures r == None <==> forall k :: 0 <= k < |s| ==> encodes(s[k])
    ensures r.Some? ==> exists k :: FirstBadAt(s, encodes, k) && s[k] == r.value
  {
    if s == [] then None
    else if !encodes(s[0]) then assert FirstBadAt(s, encodes, 0); Some(s[0])
    else
      var r := FirstUnencodable(s[1..], encodes);
      assert r.Some? ==> exists k :: FirstBadAt(s, encodes, k) && s[k] == r.value by {
        if r.Some? {
          var k :| FirstBadAt(s[1..], encodes, k) && s[1..][k] == r.value;
          FirstBadShift(s, encodes, k);
        }
      }
      assert (forall k :: 0 <= k < |s[1..]| ==> encodes(s[1..][k])) <==> (forall k :: 0 <= k < |s| ==> encodes(s[k])) by {
        assert forall k :: 0 <= k < |s[1..]| ==> s[1..][k] == s[k + 1];
      }
      r
  }

  /** The first bad character after an encodable first one is the first bad one of the whole. */
  lemma FirstBadShift(s: string, encodes: char -> bool, k: int)
    requires |s| >= 1 && encodes(s[0]) && FirstBadAt(s[1..], encodes, k)
    ensures FirstBadAt(s, encodes, k + 1) && s[k + 1] == s[1..][k]
  {
    forall j | 0 <= j < k + 1 ensures encodes(s[j]) {
      if j > 0 {
        assert s[j] == s[1..][j - 1];
      }
    }
  }
}
