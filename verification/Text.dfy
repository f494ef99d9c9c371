module Options {
  datatype Option<+T> = None | Some(value: T)
}

/** Text as the C++ streams read and write it: fields between separators, lines, decimal integers. */
module Text {
  import opened Options

  // ---- Fields -------------------------------------------------------------------------------------

  type Separator = char -> bool

  /** std::isspace in the C locale, what operator>> skips. */
  function IsSpace(c: char): bool {
    c == ' ' || '\t' <= c <= '\r'
  }

  function IsSlash(c: char): bool {
    c == '/'
  }

  function WordLength(s: string, sep: Separator): (n: nat)
    ensures n <= |s|
    ensures s != [] && !sep(s[0]) ==> n > 0
  {
    if s == [] || sep(s[0]) then 0 else 1 + WordLength(s[1..], sep)
  }

  lemma {:induction false} WordEnds(s: string, sep: Separator)
    ensures var n := WordLength(s, sep);
            (forall i :: 0 <= i < n ==> !sep(s[i])) && (n < |s| ==> sep(s[n]))
  {
    if s != [] && !sep(s[0]) {
      WordEnds(s[1..], sep);
    }
  }

  /** The maximal separator-free stretches of s, in order. */
  function Fields(s: string, sep: Separator): seq<string>
    decreases |s|
  {
    if s == [] then []
    else if sep(s[0]) then Fields(s[1..], sep)
    else
      var n := WordLength(s, sep);
      [s[..n]] + Fields(s[n..], sep)
  }

  predicate IsField(w: string, sep: Separator) {
    w != [] && forall i :: 0 <= i < |w| ==> !sep(w[i])
  }

  lemma {:induction false} FieldsAreFields(s: string, sep: Separator)
    ensures forall w :: w in Fields(s, sep) ==> IsField(w, sep)
    decreases |s|
  {
    if s != [] && sep(s[0]) {
      FieldsAreFields(s[1..], sep);
    } else if s != [] {
      WordEnds(s, sep);
      FieldsAreFields(s[WordLength(s, sep)..], sep);
    }
  }

  lemma {:induction false} WordLengthOfPrefix(w: string, rest: string, sep: Separator)
    requires forall i :: 0 <= i < |w| ==> !sep(w[i])
    requires rest == [] || sep(rest[0])
    ensures WordLength(w + rest, sep) == |w|
  {
    if w == [] {
      assert w + rest == rest;
    } else {
      assert (w + rest)[1..] == w[1..] + rest;
      WordLengthOfPrefix(w[1..], rest, sep);
    }
  }

  lemma FieldThenSeparator(w: string, rest: string, sep: Separator)
    requires IsField(w, sep) && (rest == [] || sep(rest[0]))
    ensures Fields(w + rest, sep) == [w] + Fields(rest, sep)
  {
    WordLengthOfPrefix(w, rest, sep);
    assert (w + rest)[0] == w[0];
    assert (w + rest)[..|w|] == w && (w + rest)[|w|..] == rest;
  }

  lemma FieldsUnfold(s: string, sep: Separator)
    requires s != [] && !sep(s[0])
    ensures var n := WordLength(s, sep);
            IsField(s[..n], sep) && (s[n..] == [] || sep(s[n..][0])) && s == s[..n] + s[n..]
  {
    WordEnds(s, sep);
  }

  /** Splitting distributes over a cut in front of a separator. */
  lemma {:induction false} FieldsCut(a: string, b: string, sep: Separator)
    requires b == [] || sep(b[0])
    ensures Fields(a + b, sep) == Fields(a, sep) + Fields(b, sep)
    decreases |a|
  {
    if a == [] {
      assert a + b == b;
    } else if sep(a[0]) {
      assert (a + b)[1..] == a[1..] + b;
      FieldsCut(a[1..], b, sep);
    } else {
      FieldsUnfold(a, sep);
      var n := WordLength(a, sep);
      FieldsCut(a[n..], b, sep);
      FieldsCutWord(a[..n], a[n..], b, sep);
    }
  }

  lemma FieldsCutWord(w: string, rest: string, b: string, sep: Separator)
    requires IsField(w, sep) && (rest == [] || sep(rest[0])) && (b == [] || sep(b[0]))
    requires Fields(rest + b, sep) == Fields(rest, sep) + Fields(b, sep)
    ensures Fields(w + rest + b, sep) == Fields(w + rest, sep) + Fields(b, sep)
  {
    hide Fields;
    FieldThenSeparator(w, rest, sep);
    FieldThenSeparator(w, rest + b, sep);
    assert w + rest + b == w + (rest + b);
  }

  // ---- What the fields of a text are ------------------------------------------------------------------

  /** gap, word, gap, word, ..., gap. */
  function Woven(gaps: seq<string>, words: seq<string>): string
    requires |gaps| == |words| + 1
  {
    if words == [] then gaps[0] else gaps[0] + words[0] + Woven(gaps[1..], words[1..])
  }

  ghost predicate AllSep(gap: string, sep: Separator) {
    forall i :: 0 <= i < |gap| ==> sep(gap[i])
  }

  /** The text is the words with stretches of separators between, before and after them; only the first and the last
      stretch may be empty. */
  ghost predicate Splits(s: string, sep: Separator, gaps: seq<string>, words: seq<string>) {
    && |gaps| == |words| + 1 && s == Woven(gaps, words)
    && (forall i :: 0 <= i < |words| ==> IsField(words[i], sep))
    && (forall i :: 0 <= i < |gaps| ==> AllSep(gaps[i], sep))
    && (forall i :: 0 < i < |words| ==> gaps[i] != "")
  }

  lemma {:induction false} SkipGap(gap: string, s: string, sep: Separator)
    requires AllSep(gap, sep)
    ensures Fields(gap + s, sep) == Fields(s, sep)
  {
    if gap == "" {
      assert gap + s == s;
    } else {
      assert (gap + s)[1..] == gap[1..] + s;
      SkipGap(gap[1..], s, sep);
    }
  }

  /** A text has at most one such split. */
  lemma {:induction false} SplitIsFields(s: string, sep: Separator, gaps: seq<string>, words: seq<string>)
    requires Splits(s, sep, gaps, words)
    ensures words == Fields(s, sep)
    decreases |words|
  {
    hide Fields;
    NoFields(sep);
    if words == [] {
      SkipGap(gaps[0], "", sep);
      assert gaps[0] + "" == gaps[0];
    } else {
      var rest := Woven(gaps[1..], words[1..]);
      assert s == gaps[0] + (words[0] + rest);
      SkipGap(gaps[0], words[0] + rest, sep);
      RestStarts(gaps[1..], words[1..], sep);
      FieldThenSeparator(words[0], rest, sep);
      SplitIsFields(rest, sep, gaps[1..], words[1..]);
    }
  }

  lemma NoFields(sep: Separator)
    ensures Fields("", sep) == []
  {
  }

  lemma RestStarts(gaps: seq<string>, words: seq<string>, sep: Separator)
    requires |gaps| == |words| + 1 && AllSep(gaps[0], sep) && (words != [] ==> gaps[0] != "")
    ensures Woven(gaps, words) == "" || sep(Woven(gaps, words)[0])
  {
  }

  /** And it has one, whose words are its fields. */
  lemma {:induction false} FieldsSplit(s: string, sep: Separator) returns (gaps: seq<string>)
    ensures Splits(s, sep, gaps, Fields(s, sep))
    decreases |s|
  {
    if s == "" {
      gaps := [""];
    } else if sep(s[0]) {
      var rest := FieldsSplit(s[1..], sep);
      gaps := [[s[0]] + rest[0]] + rest[1..];
      assert gaps[1..] == rest[1..];
      WovenMore([s[0]], rest, Fields(s[1..], sep));
      assert s == [s[0]] + s[1..];
    } else {
      FieldsUnfold(s, sep);
      var n := WordLength(s, sep);
      var rest := FieldsSplit(s[n..], sep);
      gaps := [""] + rest;
      var words := Fields(s, sep);
      assert gaps[1..] == rest && words[1..] == Fields(s[n..], sep);
      assert Woven(gaps, words) == "" + s[..n] + s[n..];
      if |words| > 1 { FirstGap(s[n..], sep, rest, words[1..]); }
    }
  }

  lemma WovenMore(gap: string, gaps: seq<string>, words: seq<string>)
    requires |gaps| == |words| + 1
    ensures Woven([gap + gaps[0]] + gaps[1..], words) == gap + Woven(gaps, words)
  {
    var more := [gap + gaps[0]] + gaps[1..];
    assert more[1..] == gaps[1..];
    if words != [] {
      var tail := words[0] + Woven(gaps[1..], words[1..]);
      assert Woven(gaps, words) == gaps[0] + tail && Woven(more, words) == gap + gaps[0] + tail;
    }
  }

  lemma FirstGap(s: string, sep: Separator, gaps: seq<string>, words: seq<string>)
    requires Splits(s, sep, gaps, words) && words != [] && (s == "" || sep(s[0]))
    ensures gaps[0] != ""
  {
    var rest := Woven(gaps[1..], words[1..]);
    assert s == gaps[0] + words[0] + rest == gaps[0] + (words[0] + rest);
    assert s[|gaps[0]|] == words[0][0];
  }

  // ---- Lines --------------------------------------------------------------------------------------

  function IsNewline(c: char): bool {
    c == '\n'
  }

  /** What is left after std::getline took the first line and dropped its newline. */
  function AfterLine(s: string): string {
    var n := WordLength(s, IsNewline);
    if n < |s| then s[n + 1..] else []
  }

  function FirstLine(s: string): string {
    s[..WordLength(s, IsNewline)]
  }

  /** The lines std::getline returns until it fails: a final newline does not open an empty line. */
  function Lines(s: string): seq<string>
    decreases |s|
  {
    if s == [] then [] else [FirstLine(s)] + Lines(AfterLine(s))
  }

  lemma LinesPrepend(line: string, rest: string)
    requires forall i :: 0 <= i < |line| ==> line[i] != '\n'
    ensures Lines(line + "\n" + rest) == [line] + Lines(rest)
  {
    var s := line + "\n" + rest;
    assert s == line + ("\n" + rest);
    WordLengthOfPrefix(line, "\n" + rest, IsNewline);
    assert s[..|line|] == line && s[|line| + 1..] == rest;
  }

  function Flatten<T>(ss: seq<seq<T>>): seq<T> {
    if ss == [] then [] else ss[0] + Flatten(ss[1..])
  }

  lemma {:induction false} FlattenSnoc<T>(ss: seq<seq<T>>, s: seq<T>)
    ensures Flatten(ss + [s]) == Flatten(ss) + s
  {
    if ss == [] {
      assert [] + [s] == [s] && [s][1..] == [];
    } else {
      assert (ss + [s])[1..] == ss[1..] + [s];
      FlattenSnoc(ss[1..], s);
    }
  }

  /** The six characters of std::isspace: space, tab, newline, vertical tab, form feed, carriage return. */
  predicate Blank(c: char) {
    c in [' ', '\t', '\n', '\U{0B}', '\U{0C}', '\r']
  }

  /** The words of a text: non-empty, without any of the six blank characters, and what is around them is made up of
      these only, and not empty between two words. */
  ghost predicate WordsOf(s: string, gaps: seq<string>, words: seq<string>) {
    && |gaps| == |words| + 1 && s == Woven(gaps, words)
    && (forall i :: 0 <= i < |words| ==> words[i] != "")
    && (forall i, k :: 0 <= i < |words| && 0 <= k < |words[i]| ==> !Blank(words[i][k]))
    && (forall i, k :: 0 <= i < |gaps| && 0 <= k < |gaps[i]| ==> Blank(gaps[i][k]))
    && (forall i :: 0 < i < |words| ==> gaps[i] != "")
  }

  lemma SameSplits(s: string, gaps: seq<string>, words: seq<string>)
    ensures WordsOf(s, gaps, words) <==> Splits(s, IsSpace, gaps, words)
  {
    hide Woven;
    assert forall c :: IsSpace(c) <==> Blank(c);
  }

  /** The tokens are the words of a text, however one splits it. */
  lemma TokensAreWords(s: string) returns (gaps: seq<string>)
    ensures WordsOf(s, gaps, Tokens(s))
    ensures forall others, words :: WordsOf(s, others, words) ==> words == Tokens(s)
  {
    hide Fields, WordsOf, Splits;
    gaps := FieldsSplit(s, IsSpace);
    SameSplits(s, gaps, Tokens(s));
    forall others, words | WordsOf(s, others, words) ensures words == Tokens(s) {
      SameSplits(s, others, words);
      SplitIsFields(s, IsSpace, others, words);
    }
  }

  function Tokens(s: string): seq<string> {
    Fields(s, IsSpace)
  }

  function TokensPerLine(lines: seq<string>): seq<seq<string>> {
    seq(|lines|, i requires 0 <= i < |lines| => Tokens(lines[i]))
  }

  lemma TokensFirstLine(s: string)
    requires s != []
    ensures Tokens(s) == Tokens(FirstLine(s)) + Tokens(AfterLine(s))
  {
    WordEnds(s, IsNewline);
    var n := WordLength(s, IsNewline);
    FieldsCut(s[..n], s[n..], IsSpace);
    assert s == s[..n] + s[n..];
    if n < |s| {
      assert s[n..][1..] == s[n + 1..];
    }
  }

  lemma TokensPerLinePrepend(line: string, lines: seq<string>)
    ensures Flatten(TokensPerLine([line] + lines)) == Tokens(line) + Flatten(TokensPerLine(lines))
  {
    hide Fields;
    assert TokensPerLine([line] + lines) == [Tokens(line)] + TokensPerLine(lines);
  }

  /** Reading line by line and tokenising each line yields the tokens of the whole text. */
  lemma {:induction false} TokensByLine(s: string)
    ensures Flatten(TokensPerLine(Lines(s))) == Tokens(s)
    decreases |s|
  {
    if s != [] {
      hide Fields, WordLength;
      TokensByLine(AfterLine(s));
      TokensFirstLine(s);
      TokensPerLinePrepend(FirstLine(s), Lines(AfterLine(s)));
    }
  }

  // ---- Decimal integers ---------------------------------------------------------------------------

  function Digit(d: nat): char
    requires d < 10
  {
    '0' + d as char
  }

  function IsDigit(c: char): bool {
    '0' <= c <= '9'
  }

  function NatText(n: nat): (r: string)
    ensures r != [] && forall i :: 0 <= i < |r| ==> IsDigit(r[i])
  {
    if n < 10 then [Digit(n)] else NatText(n / 10) + [Digit(n % 10)]
  }

  /** std::to_string, and operator<< on an integer. */
  function IntText(v: int): (r: string)
    ensures r != [] && forall i :: 0 <= i < |r| ==> IsDigit(r[i]) || r[i] == '-'
  {
    if v < 0 then "-" + NatText(-v) else NatText(v)
  }

  function NatValue(s: string): nat
    requires forall i :: 0 <= i < |s| ==> IsDigit(s[i])
  {
    if s == [] then 0
    else
      var last := s[|s| - 1];
      assert IsDigit(last);
      NatValue(s[..|s| - 1]) * 10 + (last as int - '0' as int)
  }

  function NotDigit(c: char): bool {
    !IsDigit(c)
  }

  const INT64_MIN := -0x8000_0000_0000_0000
  const INT64_MAX := 0x7FFF_FFFF_FFFF_FFFF

  predicate IsInt64(v: int) {
    INT64_MIN <= v <= INT64_MAX
  }

  /** std::stoll: white space is skipped, then an optional sign and the longest digit prefix. None stands for the
      exceptions it throws on missing digits and on overflow. */
  function Stoll(s: string): Option<int> {
    if s != [] && IsSpace(s[0]) then Stoll(s[1..])
    else
      var signed := s != [] && (s[0] == '-' || s[0] == '+');
      var t := if signed then s[1..] else s;
      var n := WordLength(t, NotDigit);
      if n == 0 then None
      else
        WordEnds(t, NotDigit);
        var v: int := NatValue(t[..n]);
        var r := if signed && s[0] == '-' then -v else v;
        if IsInt64(r) then Some(r) else None
  }

  lemma {:induction false} NatValueOfText(n: nat)
    ensures NatValue(NatText(n)) == n
  {
    var r := NatText(n);
    if n < 10 {
      assert r[..0] == [];
    } else {
      NatValueOfText(n / 10);
      assert r[..|r| - 1] == NatText(n / 10);
    }
  }

  /** Every 64-bit integer survives printing and parsing, negative ones included. */
  lemma StollOfIntText(v: int)
    requires IsInt64(v)
    ensures Stoll(IntText(v)) == Some(v)
  {
    var m: nat := if v < 0 then -v else v;
    var t := NatText(m);
    NatValueOfText(m);
    WordLengthOfPrefix(t, [], NotDigit);
    assert t + [] == t && t[..|t|] == t;
    assert IsDigit(t[0]);
    if v < 0 {
      assert IntText(v)[1..] == t;
    }
  }

  /** One digit more to the right: decimal, most significant digit first, with a minus sign in front of negatives. */
  lemma DecimalText(n: nat, d: nat)
    requires d < 10
    ensures IntText(d) == ["0123456789"[d]]
    ensures n > 0 ==> IntText(10 * n + d) == IntText(n) + ["0123456789"[d]] && IntText(0 - n) == "-" + IntText(n)
  {
    assert Digit(d) == "0123456789"[d];
    assert (10 * n + d) / 10 == n && (10 * n + d) % 10 == d;
  }

  /** White space, a sign or none, digits, and then anything else: the number is parsed if it fits 64 bits. */
  lemma StollReads(space: string, sign: string, n: nat, rest: string)
    requires forall i :: 0 <= i < |space| ==> IsSpace(space[i])
    requires sign == "" || sign == "+" || sign == "-"
    requires rest != "" ==> !('0' <= rest[0] <= '9')
    ensures var v: int := if sign == "-" then 0 - n else n;
            Stoll(space + sign + NatText(n) + rest)
            == if -0x8000_0000_0000_0000 <= v <= 0x7FFF_FFFF_FFFF_FFFF then Some(v) else None
  {
    hide NatText, Stoll;
    assert space + sign + NatText(n) + rest == space + (sign + (NatText(n) + rest));
    SpaceThen(space, sign + (NatText(n) + rest));
    SignedReads(sign, n, rest);
  }

  lemma SignedReads(sign: string, n: nat, rest: string)
    requires sign == "" || sign == "+" || sign == "-"
    requires rest != "" ==> !('0' <= rest[0] <= '9')
    ensures var v: int := if sign == "-" then 0 - n else n;
            Stoll(sign + (NatText(n) + rest)) == if IsInt64(v) then Some(v) else None
  {
    hide NatText, NatValue, WordLength;
    var digits := NatText(n) + rest;
    var t := sign + digits;
    assert digits[0] == NatText(n)[0] && IsDigit(NatText(n)[0]);
    assert if sign == "" then t == digits else t[0] == sign[0] && t[1..] == digits;
    NatValueOfText(n);
    WordLengthOfPrefix(NatText(n), rest, NotDigit);
    assert digits[..|NatText(n)|] == NatText(n);
    hide IsInt64;
  }

  lemma {:induction false} SpaceThen(space: string, t: string)
    requires forall i :: 0 <= i < |space| ==> IsSpace(space[i])
    ensures Stoll(space + t) == Stoll(t)
  {
    if space == "" {
      assert space + t == t;
    } else {
      assert (space + t)[1..] == space[1..] + t;
      SpaceThen(space[1..], t);
    }
  }

  /** Without a digit after the white space and the sign nothing is parsed. */
  lemma StollRefuses(space: string, sign: string, rest: string)
    requires forall i :: 0 <= i < |space| ==> IsSpace(space[i])
    requires sign == "" || sign == "+" || sign == "-"
    requires rest != "" ==> !('0' <= rest[0] <= '9') && (sign == "" ==> !IsSpace(rest[0]) && rest[0] !in "+-")
    ensures Stoll(space + sign + rest) == None
  {
    assert space + sign + rest == space + (sign + rest);
    SpaceThen(space, sign + rest);
    if sign == "" { assert sign + rest == rest; } else { assert (sign + rest)[1..] == rest; }
  }

  lemma IntTextInjective(a: int, b: int)
    requires IntText(a) == IntText(b)
    ensures a == b
  {
    var s, t := NatText(if a < 0 then -a else a), NatText(if b < 0 then -b else b);
    NatValueOfText(if a < 0 then -a else a);
    NatValueOfText(if b < 0 then -b else b);
    assert IsDigit(s[0]) && IsDigit(t[0]);
    if a < 0 {
      assert IntText(a)[1..] == s;
      assert IntText(b)[1..] == t;
    }
  }
}
