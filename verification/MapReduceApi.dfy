/** The local files that jobs read and write: path to content. A missing input reads as no lines. */
module LocalFiles {
  class FileStore {
    var files: map<string, string>

    constructor ()
      ensures files == map[]
    {
      files := map[];
    }

    function Read(path: string): string
      reads this
    {
      if path in files then files[path] else ""
    }
  }
}

/** TextRecordReader, and running a mapper over every record of a text. */
module InputFormat {
  import opened Order
  import opened Text

  type Mapper = (int, string) -> seq<KV>

  /** Everything the mapper collects over the lines of s, where s starts at byte `offset` of its file. */
  function MapOutput(mapper: Mapper, s: string, offset: int): seq<KV>
    decreases |s|
  {
    if s == [] then []
    else mapper(offset, FirstLine(s)) + MapOutput(mapper, AfterLine(s), offset + |FirstLine(s)| + 1)
  }

  /** Loop invariant of a map phase: what was collected, and what the unread rest will still add. */
  ghost predicate MapSoFar(mapper: Mapper, content: string, collected: seq<KV>, rest: string, pos: int) {
    collected + MapOutput(mapper, rest, pos) == MapOutput(mapper, content, 0)
  }

  lemma MapStart(mapper: Mapper, content: string)
    ensures MapSoFar(mapper, content, [], content, 0)
  {
  }

  lemma MapStep(mapper: Mapper, content: string, collected: seq<KV>, rest: string, pos: int)
    requires MapSoFar(mapper, content, collected, rest, pos) && rest != []
    ensures MapSoFar(mapper, content, collected + mapper(pos, FirstLine(rest)), AfterLine(rest),
                     pos + |FirstLine(rest)| + 1)
    ensures |AfterLine(rest)| < |rest|
  {
    var a, b, c := collected, mapper(pos, FirstLine(rest)),
                   MapOutput(mapper, AfterLine(rest), pos + |FirstLine(rest)| + 1);
    assert a + (b + c) == (a + b) + c;
  }

  lemma MapFinish(mapper: Mapper, content: string, collected: seq<KV>, pos: int)
    requires MapSoFar(mapper, content, collected, [], pos)
    ensures collected == MapOutput(mapper, content, 0)
  {
  }

  /** `line` stands in the file at byte `offset`, from a line start up to a newline or the end. */
  ghost predicate LineAt(content: string, offset: int, line: string) {
    0 <= offset <= offset + |line| <= |content| && content[offset..offset + |line|] == line &&
    (offset == 0 || content[offset - 1] == '\n') &&
    (offset + |line| < |content| ==> content[offset + |line|] == '\n')
  }

  function CallsOf(mapper: Mapper, offsets: seq<int>, lines: seq<string>): seq<seq<KV>>
    requires |offsets| == |lines|
  {
    seq(|lines|, i requires 0 <= i < |lines| => mapper(offsets[i], lines[i]))
  }

  /** The lines of the file from `pos` on, each with its byte offset. */
  ghost predicate LinesFrom(content: string, pos: int, offsets: seq<int>, lines: seq<string>) {
    && |offsets| == |lines| && (lines == [] <==> pos >= |content|)
    && (forall i, k :: 0 <= i < |lines| && 0 <= k < |lines[i]| ==> lines[i][k] != '\n')
    && (forall i :: 0 <= i < |lines| ==> LineAt(content, offsets[i], lines[i]))
    && (forall i :: 0 < i < |lines| ==> offsets[i] == offsets[i - 1] + |lines[i - 1]| + 1)
    && (lines != [] ==> offsets[0] == pos && offsets[|lines| - 1] + |lines[|lines| - 1]| + 1 >= |content|)
  }

  /** The mapper is called once for each line of the file, in order, with the byte offset of the line. */
  lemma MapCalls(mapper: Mapper, content: string) returns (offsets: seq<int>, lines: seq<string>)
    ensures LinesFrom(content, 0, offsets, lines)
    ensures MapOutput(mapper, content, 0) == Flatten(CallsOf(mapper, offsets, lines))
  {
    offsets, lines := CallsFrom(mapper, content, 0);
    assert content[0..] == content;
  }

  lemma {:induction false} CallsFrom(mapper: Mapper, content: string, pos: nat)
    returns (offsets: seq<int>, lines: seq<string>)
    requires pos <= |content| && (pos == 0 || content[pos - 1] == '\n')
    ensures LinesFrom(content, pos, offsets, lines)
    ensures MapOutput(mapper, content[pos..], pos) == Flatten(CallsOf(mapper, offsets, lines))
    decreases |content| - pos
  {
    hide Flatten, CallsOf, WordLength, LinesFrom, LineAt, MapOutput, FirstLine, AfterLine;
    var s := content[pos..];
    offsets, lines := [], [];
    NoCalls(mapper);
    if s == "" {
      LastLines(content, pos);
    } else {
      var n := CutLine(content, pos);
      MapOutputFirst(mapper, s, pos);
      if pos + n < |content| {
        offsets, lines := CallsFrom(mapper, content, pos + n + 1);
      } else {
        LastLines(content, pos + n + 1);
      }
      MoreLines(content, pos, n, offsets, lines);
      SameCount(content, pos + n + 1, offsets, lines);
      FirstLineCall(mapper, pos, s[..n], offsets, lines);
      offsets, lines := [pos] + offsets, [s[..n]] + lines;
    }
  }

  lemma CutLine(content: string, pos: nat) returns (n: nat)
    requires pos < |content|
    ensures pos + n <= |content| && FirstLine(content[pos..]) == content[pos..][..n]
    ensures forall k :: 0 <= k < n ==> content[pos..][k] != '\n'
    ensures pos + n < |content| ==> content[pos..][n] == '\n' && content[pos + n] == '\n'
    ensures AfterLine(content[pos..]) == if pos + n < |content| then content[pos + n + 1..] else ""
  {
    hide WordLength;
    n := WordLength(content[pos..], IsNewline);
    WordEnds(content[pos..], IsNewline);
  }

  lemma MapOutputFirst(mapper: Mapper, s: string, offset: int)
    requires s != ""
    ensures MapOutput(mapper, s, offset)
         == mapper(offset, FirstLine(s)) + MapOutput(mapper, AfterLine(s), offset + |FirstLine(s)| + 1)
  {
  }

  lemma LastLines(content: string, pos: int)
    requires pos >= |content|
    ensures LinesFrom(content, pos, [], [])
  {
  }

  lemma SameCount(content: string, pos: int, offsets: seq<int>, lines: seq<string>)
    requires LinesFrom(content, pos, offsets, lines)
    ensures |offsets| == |lines|
  {
  }

  lemma MoreLines(content: string, pos: nat, n: nat, offsets: seq<int>, lines: seq<string>)
    requires pos + n <= |content| && pos < |content| && (pos == 0 || content[pos - 1] == '\n')
    requires forall k :: 0 <= k < n ==> content[pos..][k] != '\n'
    requires pos + n < |content| ==> content[pos..][n] == '\n'
    requires LinesFrom(content, pos + n + 1, offsets, lines)
    ensures LinesFrom(content, pos, [pos] + offsets, [content[pos..][..n]] + lines)
  {
    hide LineAt;
    OneLine(content, pos, n);
    var all, first := [content[pos..][..n]] + lines, [pos] + offsets;
    assert forall i :: 1 <= i < |all| ==> all[i] == lines[i - 1] && first[i] == offsets[i - 1];
  }

  lemma OneLine(content: string, pos: nat, n: nat)
    requires pos + n <= |content| && (pos == 0 || content[pos - 1] == '\n')
    requires pos + n < |content| ==> content[pos..][n] == '\n'
    ensures LineAt(content, pos, content[pos..][..n])
  {
    assert content[pos..][..n] == content[pos..pos + n];
  }

  lemma NoCalls(mapper: Mapper)
    ensures Flatten(CallsOf(mapper, [], [])) == [] && forall offset :: MapOutput(mapper, "", offset) == []
  {
  }

  lemma FirstLineCall(mapper: Mapper, offset: int, line: string, offsets: seq<int>, lines: seq<string>)
    requires |offsets| == |lines|
    ensures Flatten(CallsOf(mapper, [offset] + offsets, [line] + lines))
         == mapper(offset, line) + Flatten(CallsOf(mapper, offsets, lines))
  {
    var calls := CallsOf(mapper, [offset] + offsets, [line] + lines);
    assert calls[0] == mapper(offset, line) && calls[1..] == CallsOf(mapper, offsets, lines);
  }

  class TextRecordReader {
    const content: string
    var rest: string          // what the stream has not consumed yet
    var pos: int
    var currentLine: string

    ghost predicate Valid()
      reads this
    {
      |rest| <= |content| && rest == content[|content| - |rest|..] && pos >= 0 &&
      (rest != [] ==> pos == |content| - |rest| && (pos == 0 || content[pos - 1] == '\n'))
    }

    constructor (content: string)
      ensures Valid() && rest == content && this.content == content && pos == 0
    {
      this.content := content;
      rest := content;
      pos := 0;
      currentLine := "";
    }

    method GetLine() returns (ok: bool)
      modifies `rest, `currentLine
      ensures ok <==> old(rest) != []
      ensures ok ==> currentLine == FirstLine(old(rest)) && rest == AfterLine(old(rest))
      ensures !ok ==> rest == old(rest)
    {
      ok := rest != [];
      if ok {
        currentLine, rest := FirstLine(rest), AfterLine(rest);
      }
    }

    /** One record: its key is the byte offset at which its line stands in the file. */
    method Next() returns (ok: bool, key: int, value: string)
      requires Valid()
      modifies this
      ensures Valid()
      ensures ok <==> old(rest) != []
      ensures ok ==> value == FirstLine(old(rest)) && rest == AfterLine(old(rest))
      ensures ok ==> key == old(pos) && pos == old(pos) + |value| + 1 && LineAt(content, key, value)
      ensures !ok ==> rest == []
    {
      key, value := 0, "";
      if pos == 0 {
        ok := GetLine();
        if !ok { return; }
      } else {
        ok := GetLine();
        if !ok { return; }
      }
      key, value := pos, currentLine;
      ghost var before := old(rest);
      WordEnds(before, IsNewline);
      assert before == content[pos..];
      assert value == before[..|value|];
      pos := pos + |currentLine| + 1;
      if |value| < |before| {
        assert before[|value|] == content[key + |value|];
        assert rest == before[|value| + 1..];
      }
    }
  }
}

/** The word count example: mapper, reducer and combiner. */
module WordCount {
  import opened Order
  import opened Tables
  import opened Text
  import opened InputFormat

  function Ones(words: seq<string>): (r: seq<KV>)
    ensures |r| == |words|
  {
    seq(|words|, i requires 0 <= i < |words| => (words[i], 1))
  }

  function WordMap(offset: int, line: string): seq<KV> {
    Ones(Tokens(line))
  }

  function Occurrences(words: seq<string>, w: string): nat {
    if words == [] then 0 else (if words[0] == w then 1 else 0) + Occurrences(words[1..], w)
  }

  function SkipSpace(s: string): string {
    if s != [] && IsSpace(s[0]) then SkipSpace(s[1..]) else s
  }

  lemma {:induction false} SkipSpaceTokens(s: string)
    ensures Tokens(SkipSpace(s)) == Tokens(s) && |SkipSpace(s)| <= |s|
    ensures SkipSpace(s) != [] ==> !IsSpace(SkipSpace(s)[0])
  {
    if s != [] && IsSpace(s[0]) {
      SkipSpaceTokens(s[1..]);
    }
  }

  /** WordCountMapper::Map, a loop of stream extractions. It emits (word, 1) for each word between blanks. */
  method Map(line: string) returns (output: seq<KV>, ghost gaps: seq<string>, ghost words: seq<string>)
    ensures output == WordMap(0, line)
    ensures |output| == |words| && forall i :: 0 <= i < |words| ==> output[i] == (words[i], 1)
    ensures |gaps| == |words| + 1 && line == Woven(gaps, words)
    ensures forall i :: 0 <= i < |words| ==> words[i] != ""
    ensures forall i, k :: 0 <= i < |words| && 0 <= k < |words[i]| ==>
      words[i][k] !in [' ', '\t', '\n', '\U{0B}', '\U{0C}', '\r']
    ensures forall i, k :: 0 <= i < |gaps| && 0 <= k < |gaps[i]| ==>
      gaps[i][k] in [' ', '\t', '\n', '\U{0B}', '\U{0C}', '\r']
    ensures forall i :: 0 < i < |words| ==> gaps[i] != ""
  {
    words := Tokens(line);
    gaps := TokensAreWords(line);
    output := [];
    var stream := line;
    while true
      invariant output + Ones(Tokens(stream)) == Ones(Tokens(line))
      decreases |stream|
    {
      SkipSpaceTokens(stream);
      stream := SkipSpace(stream);
      if stream == [] { break; }
      var n := WordLength(stream, IsSpace);
      var word := stream[..n];
      assert Ones([word] + Tokens(stream[n..])) == [(word, 1)] + Ones(Tokens(stream[n..]));
      output := output + [(word, 1)];
      stream := stream[n..];
    }
    assert Ones(Tokens([])) == [];
  }

  /** WordCountReducer::Reduce and WordCountCombiner::Combine. */
  method Reduce(key: string, values: seq<int>) returns (output: seq<KV>)
    ensures output == SumReducer(key, values)
  {
    var sum := 0;
    for i := 0 to |values|
      invariant sum == Sum(values[..i])
    {
      assert values[..i + 1][..i] == values[..i];
      sum := sum + values[i];
    }
    assert values[..|values|] == values;
    output := [(key, sum)];
  }

  /** The number of occurrences is the multiplicity. */
  lemma {:induction false} OccurrencesAre(words: seq<string>, w: string)
    ensures Occurrences(words, w) == multiset(words)[w]
  {
    if words != [] {
      assert words == [words[0]] + words[1..];
      OccurrencesAre(words[1..], w);
    }
  }

  lemma OnesConcat(a: seq<string>, b: seq<string>)
    ensures Ones(a + b) == Ones(a) + Ones(b)
  {
  }

  lemma WordMapByLine(s: string, offset: int)
    requires s != []
    ensures Ones(Tokens(s)) == WordMap(offset, FirstLine(s)) + Ones(Tokens(AfterLine(s)))
  {
    hide Fields;
    TokensFirstLine(s);
    OnesConcat(Tokens(FirstLine(s)), Tokens(AfterLine(s)));
  }

  /** The map phase over a whole file emits a one for each word of the file, in order. */
  lemma {:induction false} WordMapOutput(s: string, offset: int)
    ensures MapOutput(WordMap, s, offset) == Ones(Tokens(s))
    decreases |s|
  {
    assert Tokens([]) == [];
    hide Fields, WordLength, Ones;
    if s != [] {
      WordMapByLine(s, offset);
      WordMapOutput(AfterLine(s), offset + |FirstLine(s)| + 1);
    } else {
      assert Ones([]) == [];
    }
  }

  lemma {:induction false} TotalOfOnes(words: seq<string>, w: string)
    ensures Total(Ones(words), w) == Occurrences(words, w)
    ensures Has(Ones(words), w) <==> w in words
  {
    if words != [] {
      assert Ones(words)[1..] == Ones(words[1..]);
      TotalOfOnes(words[1..], w);
      if w in words {
        var i :| 0 <= i < |words| && words[i] == w;
        assert Ones(words)[i].0 == w;
      }
    }
  }
}
