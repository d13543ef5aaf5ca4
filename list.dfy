/**
 * The newest-first listing: one line per entry, the entry's id, a tab, and a
 * preview of its payload. Payloads the image library recognises are
 * summarised; other payloads are shown as text with runs of whitespace
 * collapsed and cut to the preview width.
 */
module List {
  import opened Errors
  import opened Common
  import opened Nut

  const ELLIPSIS: string := "\U{2026}"

  /** `char::is_whitespace`: the Unicode White_Space characters. */
  predicate IsWhitespace(c: char) {
    ('\U{0009}' <= c <= '\U{000D}') || c == ' ' || c == '\U{0085}' || c == '\U{00A0}'
    || c == '\U{1680}' || ('\U{2000}' <= c <= '\U{200A}') || c == '\U{2028}' || c == '\U{2029}'
    || c == '\U{202F}' || c == '\U{205F}' || c == '\U{3000}'
  }

  predicate NoWhitespace(w: string) {
    forall i :: 0 <= i < |w| ==> !IsWhitespace(w[i])
  }

  /**
   * Text with whitespace collapsed: nothing at either end, and every
   * whitespace character inside is a single space between two others.
   */
  predicate Normalized(c: string) {
    forall i :: 0 <= i < |c| && IsWhitespace(c[i]) ==>
      c[i] == ' ' && 0 < i < |c| - 1 && !IsWhitespace(c[i - 1]) && !IsWhitespace(c[i + 1])
  }

  /**
   * `trunc` keeps short text unchanged; longer text becomes its first width
   * chars followed by the suffix, so it never exceeds width + |suffix| chars.
   */
  function Trunc(s: string, width: nat, suffix: string): (r: string)
    ensures |s| <= width ==> r == s
    ensures |s| > width ==> |r| == width + |suffix| && r[..width] == s[..width] && r[width..] == suffix
    ensures |r| <= width + |suffix|
    ensures |r| >= Min(|s|, width) && r[..Min(|s|, width)] == s[..Min(|s|, width)]
  {
    if |s| <= width then s else s[..width] + suffix
  }

  /** `str::trim_start`. */
  function TrimStart(s: string): (r: string)
    ensures |r| <= |s| && (r == [] || !IsWhitespace(r[0]))
  {
    if s != [] && IsWhitespace(s[0]) then TrimStart(s[1..]) else s
  }

  /** `str::trim_end`. */
  function TrimEnd(s: string): (r: string)
    ensures |r| <= |s| && (r == [] || !IsWhitespace(r[|r| - 1]))
  {
    if s != [] && IsWhitespace(s[|s| - 1]) then TrimEnd(s[..|s| - 1]) else s
  }

  /** `str::trim`: no whitespace is left at either end. */
  function Trim(s: string): (r: string)
    ensures |r| <= |s| && (r == [] || (!IsWhitespace(r[0]) && !IsWhitespace(r[|r| - 1])))
  {
    TrimEndSpec(TrimStart(s));
    TrimEnd(TrimStart(s))
  }

  /** The longest prefix of t without whitespace. */
  function Word(t: string): (w: string)
    ensures |w| <= |t| && NoWhitespace(w)
    ensures t != [] && !IsWhitespace(t[0]) ==> w != []
  {
    if t == [] || IsWhitespace(t[0]) then [] else [t[0]] + Word(t[1..])
  }

  /** `str::split_whitespace`: the maximal runs of non-whitespace, in order. */
  function SplitWhitespace(s: string): (ws: seq<string>)
    ensures AllWords(ws)
    decreases |s|
  {
    var t := TrimStart(s);
    if t == [] then []
    else
      var w := Word(t);
      AllWordsCons(w, SplitWhitespace(t[|w|..]));
      [w] + SplitWhitespace(t[|w|..])
  }

  /** The number of chars in all the words together. */
  function Letters(words: seq<string>): nat {
    if words == [] then 0 else |words[0]| + Letters(words[1..])
  }

  /** `join(sep)` on a vector of strings: every word's chars plus one separator between each two. */
  function Join(words: seq<string>, sep: string): (r: string)
    ensures words == [] ==> r == []
    ensures words != [] ==> |r| == Letters(words) + (|words| - 1) * |sep|
  {
    if words == [] then ""
    else if |words| == 1 then words[0]
    else words[0] + sep + Join(words[1..], sep)
  }

  /**
   * The text branch's cleaning: trim, split at whitespace, join with single
   * spaces. The result has no whitespace at either end, and each whitespace
   * char in it is a single space between two others.
   */
  function Clean(s: string): (r: string)
    ensures Normalized(r)
  {
    var ws := SplitWhitespace(Trim(s));
    JoinNormalized(ws);
    Join(ws, " ")
  }

  /** What the image library reports about a payload it decodes: format name, width, height. */
  datatype ImageInfo = ImageInfo(format: string, width: nat, height: nat)

  /**
   * The foreign parts of `preview`: the image probe (format guess and decode),
   * `String::from_utf8_lossy`, and `size_str`.
   */
  datatype Oracles = Oracles(probe: seq<uint8> -> Option<ImageInfo>, lossy: seq<uint8> -> string, sizeStr: nat -> string)

  /**
   * What the foreign parts promise about the image line: `size_str` and the
   * lower-cased format name hold no line break.
   */
  ghost predicate ValidOracles(o: Oracles) {
    (forall n: nat :: '\n' !in o.sizeStr(n))
    && (forall d :: o.probe(d).Some? ==> '\n' !in o.probe(d).value.format)
  }

  /**
   * The text branch of `preview`: the id, a tab, and the cleaned text cut to
   * width chars plus the one-char ellipsis.
   */
  function TextPreview(index: uint64, text: string, width: nat): (r: string)
    ensures |r| > |Decimal(index)| && r[..|Decimal(index)| + 1] == Decimal(index) + FIELD_SEP
    ensures |r| <= |Decimal(index)| + 1 + width + 1
  {
    Decimal(index) + FIELD_SEP + Trunc(Clean(text), width, ELLIPSIS)
  }

  /** The image branch of `preview`: the id, a tab, and the bracketed summary of the image. */
  function ImagePreview(index: uint64, size: string, img: ImageInfo): (r: string)
    ensures |r| > |Decimal(index)| + 1 + 15 && r[..|Decimal(index)| + 1 + 15] == Decimal(index) + FIELD_SEP + "[[ binary data "
    ensures r[|r| - 3..] == " ]]"
  {
    Decimal(index) + FIELD_SEP + "[[ binary data " + size + " " + img.format + " "
      + Decimal(img.width) + "x" + Decimal(img.height) + " ]]"
  }

  /**
   * `preview`: an image summary when the payload decodes as an image, else
   * the text preview; either way the line starts with the id and a tab.
   */
  function Preview(index: uint64, data: seq<uint8>, width: nat, o: Oracles): (r: string)
    ensures |r| > |Decimal(index)| && r[..|Decimal(index)| + 1] == Decimal(index) + FIELD_SEP
    ensures o.probe(data).None? ==> |r| <= |Decimal(index)| + 1 + width + 1
    ensures o.probe(data).Some? ==> |r| >= 3 && r[|r| - 3..] == " ]]"
  {
    match o.probe(data)
    case Some(img) => ImagePreview(index, o.sizeStr(|data|), img)
    case None => TextPreview(index, o.lossy(data), width)
  }

  /** The lines `list` writes, newest entry first. */
  function ListLines(s: seq<Entry>, width: nat, o: Oracles): (ls: seq<string>)
    requires forall e :: e in s ==> |e.key| >= 8
    ensures |ls| == |s|
  {
    seq(|s|, i requires 0 <= i < |s| => Preview(Btoi(s[|s| - 1 - i].key), s[|s| - 1 - i].value, width, o))
  }

  /** The output of writing each line followed by a newline. */
  function Written(ls: seq<string>): string {
    if ls == [] then "" else Written(ls[..|ls| - 1]) + ls[|ls| - 1] + "\n"
  }

  /** Writing one more line appends it and a newline to the output. */
  lemma WrittenSnoc(ls: seq<string>, n: nat)
    requires 0 < n <= |ls|
    ensures Written(ls[..n]) == Written(ls[..n - 1]) + ls[n - 1] + "\n"
  {
    assert ls[..n][..n - 1] == ls[..n - 1];
  }

  /** Output split back into lines at each newline. */
  function SplitLines(s: string): seq<string>
    decreases |s|
  {
    if s == [] then []
    else
      var c := Cut(s, '\n');
      [c.0] + SplitLines(c.1)
  }

  // ---------------------------------------------------------------------------
  // Whitespace cleaning
  // ---------------------------------------------------------------------------

  predicate AllWords(ws: seq<string>) {
    forall i :: 0 <= i < |ws| ==> ws[i] != [] && NoWhitespace(ws[i])
  }

  lemma AllWordsCons(w: string, ws: seq<string>)
    requires w != [] && NoWhitespace(w) && AllWords(ws)
    ensures AllWords([w] + ws)
  {
    forall i | 0 <= i < |ws| + 1
      ensures ([w] + ws)[i] != [] && NoWhitespace(([w] + ws)[i])
    {
      if i > 0 {
        assert ([w] + ws)[i] == ws[i - 1];
      }
    }
  }

  lemma AllWordsTail(ws: seq<string>)
    requires AllWords(ws) && ws != []
    ensures AllWords(ws[1..]) && ws[0] != [] && NoWhitespace(ws[0])
  {
    forall i | 0 <= i < |ws| - 1
      ensures ws[1..][i] != [] && NoWhitespace(ws[1..][i])
    {
      assert ws[1..][i] == ws[i + 1];
    }
  }

  /** Words joined by single spaces form normalized, non-empty text (when there are words). */
  lemma {:induction false} JoinNormalized(ws: seq<string>)
    requires AllWords(ws)
    ensures Normalized(Join(ws, " "))
    ensures ws != [] ==> Join(ws, " ") != [] && !IsWhitespace(Join(ws, " ")[0])
  {
    if |ws| == 1 {
      assert ws[0] != [];
    } else if |ws| > 1 {
      var w, j := ws[0], Join(ws[1..], " ");
      AllWordsTail(ws);
      JoinNormalized(ws[1..]);
      var c := w + " " + j;
      assert Join(ws, " ") == c;
      forall i | 0 <= i < |c|
        ensures IsWhitespace(c[i]) ==>
          c[i] == ' ' && 0 < i < |c| - 1 && !IsWhitespace(c[i - 1]) && !IsWhitespace(c[i + 1])
      {
        if i < |w| {
          assert c[i] == w[i];
        } else if i == |w| {
          assert c[i - 1] == w[|w| - 1] && c[i + 1] == j[0];
        } else {
          var k := i - |w| - 1;
          assert c[i] == j[k];
          if IsWhitespace(j[k]) {
            assert c[i + 1] == j[k + 1] && c[i - 1] == j[k - 1];
          }
        }
      }
    }
  }

  /** Normalized text has nothing to trim. */
  lemma TrimNormalized(c: string)
    requires Normalized(c)
    ensures TrimStart(c) == c && TrimEnd(c) == c && Trim(c) == c
  {
    if c != [] {
      assert !IsWhitespace(c[0]);
      assert !IsWhitespace(c[|c| - 1]);
    }
  }

  /** trim_start drops exactly the leading whitespace: what remains is a suffix starting with a non-whitespace char. */
  lemma {:induction false} TrimStartSpec(s: string)
    ensures |TrimStart(s)| <= |s| && TrimStart(s) == s[|s| - |TrimStart(s)|..]
    ensures forall i :: 0 <= i < |s| - |TrimStart(s)| ==> IsWhitespace(s[i])
    ensures TrimStart(s) == [] || !IsWhitespace(TrimStart(s)[0])
  {
    if s != [] && IsWhitespace(s[0]) {
      TrimStartSpec(s[1..]);
      forall i | 0 < i < |s| - |TrimStart(s)|
        ensures IsWhitespace(s[i])
      {
        assert s[i] == s[1..][i - 1];
      }
    }
  }

  /** trim_end drops exactly the trailing whitespace: what remains is a prefix ending with a non-whitespace char. */
  lemma {:induction false} TrimEndSpec(s: string)
    ensures |TrimEnd(s)| <= |s| && TrimEnd(s) == s[..|TrimEnd(s)|]
    ensures forall i :: |TrimEnd(s)| <= i < |s| ==> IsWhitespace(s[i])
    ensures TrimEnd(s) == [] || !IsWhitespace(TrimEnd(s)[|TrimEnd(s)| - 1])
  {
    if s != [] && IsWhitespace(s[|s| - 1]) {
      var t := s[..|s| - 1];
      TrimEndSpec(t);
      assert TrimEnd(s) == TrimEnd(t);
      assert t[..|TrimEnd(t)|] == s[..|TrimEnd(t)|];
      forall i | |TrimEnd(s)| <= i < |s| - 1
        ensures IsWhitespace(s[i])
      {
        assert s[i] == t[i];
      }
    } else {
      assert s[..|s|] == s;
    }
  }

  /** A word followed by nothing or by whitespace is what Word reads. */
  lemma {:induction false} WordOf(w: string, rest: string)
    requires NoWhitespace(w)
    requires rest == [] || IsWhitespace(rest[0])
    ensures Word(w + rest) == w
  {
    if w != [] {
      assert (w + rest)[0] == w[0] && (w + rest)[1..] == w[1..] + rest;
      WordOf(w[1..], rest);
      assert w == [w[0]] + w[1..];
    } else {
      assert w + rest == rest;
    }
  }

  /** Splitting a word followed by whitespace (or nothing) yields that word first. */
  lemma SplitWordThen(w: string, rest: string)
    requires w != [] && NoWhitespace(w)
    requires rest == [] || IsWhitespace(rest[0])
    ensures SplitWhitespace(w + rest) == [w] + SplitWhitespace(rest)
  {
    var c := w + rest;
    assert c[0] == w[0];
    assert TrimStart(c) == c;
    WordOf(w, rest);
    assert c[|w|..] == rest;
  }

  /** A single space before text starting with a word is skipped. */
  lemma SplitSpace(j: string)
    requires j == [] || !IsWhitespace(j[0])
    ensures SplitWhitespace(" " + j) == SplitWhitespace(j)
  {
    assert (" " + j)[1..] == j;
    assert TrimStart(j) == j;
    assert TrimStart(" " + j) == j;
  }

  lemma JoinStep(ws: seq<string>, sep: string)
    requires |ws| > 1
    ensures Join(ws, sep) == ws[0] + (sep + Join(ws[1..], sep))
  {
  }

  /** Splitting words joined by single spaces gives the words back. */
  lemma {:induction false} SplitJoin(ws: seq<string>)
    requires AllWords(ws)
    ensures SplitWhitespace(Join(ws, " ")) == ws
  {
    if |ws| == 1 {
      var w := ws[0];
      assert w + [] == w;
      SplitWordThen(w, []);
      assert SplitWhitespace([]) == [];
    } else if |ws| > 1 {
      var w, j := ws[0], Join(ws[1..], " ");
      assert ws == [w] + ws[1..];
      JoinStep(ws, " ");
      AllWordsTail(ws);
      JoinNormalized(ws[1..]);
      SplitJoin(ws[1..]);
      SplitWordThen(w, " " + j);
      SplitSpace(j);
    }
  }

  /** Cleaning twice is cleaning once. */
  lemma CleanIdempotent(s: string)
    ensures Clean(Clean(s)) == Clean(s)
  {
    var ws := SplitWhitespace(Trim(s));
    TrimNormalized(Clean(s));
    SplitJoin(ws);
  }

  /** Normalized text holds no line break. */
  lemma NormalizedNoNewline(c: string)
    requires Normalized(c)
    ensures '\n' !in c
  {
    forall i | 0 <= i < |c|
      ensures c[i] != '\n'
    {
      if c[i] == '\n' {
        assert IsWhitespace(c[i]);
      }
    }
  }

  // ---------------------------------------------------------------------------
  // Previews
  // ---------------------------------------------------------------------------

  /** Both branches start the line with the id and a tab, so `extract_id` recovers the id. */
  lemma PreviewId(index: uint64, data: seq<uint8>, width: nat, o: Oracles)
    ensures ExtractId(Preview(index, data, width, o)) == Ok(index)
  {
    match o.probe(data)
    case Some(img) =>
      var tail := "[[ binary data " + o.sizeStr(|data|) + " " + img.format + " "
        + Decimal(img.width) + "x" + Decimal(img.height) + " ]]";
      assert ImagePreview(index, o.sizeStr(|data|), img) == Decimal(index) + FIELD_SEP + tail;
      ExtractIdListed(index, tail);
    case None =>
      ExtractIdListed(index, Trunc(Clean(o.lossy(data)), width, ELLIPSIS));
  }

  /** The id text holds no line break. */
  lemma DecimalNoNewline(n: nat)
    ensures '\n' !in Decimal(n)
  {
    var d := Decimal(n);
    forall i | 0 <= i < |d|
      ensures d[i] != '\n'
    {
      assert IsDigit(d[i]);
    }
  }

  /** The text after the tab is at most width chars plus the ellipsis, and holds no line break. */
  lemma TruncNoNewline(c: string, width: nat)
    requires '\n' !in c
    ensures '\n' !in Trunc(c, width, ELLIPSIS)
    ensures |Trunc(c, width, ELLIPSIS)| <= width + 1
  {
    if |c| > width {
      var t := c[..width] + ELLIPSIS;
      forall i | 0 <= i < |t|
        ensures t[i] != '\n'
      {
        if i < width {
          assert t[i] == c[i];
        }
      }
    }
  }

  /**
   * The text branch: the id, a tab, then the cleaned text cut to width chars
   * plus the ellipsis; the line holds no line break.
   */
  lemma TextPreviewLine(index: uint64, text: string, width: nat)
    ensures ExtractId(TextPreview(index, text, width)) == Ok(index)
    ensures '\n' !in TextPreview(index, text, width)
    ensures |TextPreview(index, text, width)| <= |Decimal(index)| + 1 + width + 1
    ensures |Clean(text)| <= width ==> TextPreview(index, text, width) == Decimal(index) + FIELD_SEP + Clean(text)
  {
    var c := Clean(text);
    var t := Trunc(c, width, ELLIPSIS);
    var d := Decimal(index);
    ExtractIdListed(index, t);
    NormalizedNoNewline(c);
    DecimalNoNewline(index);
    TruncNoNewline(c, width);
    var line := d + FIELD_SEP + t;
    forall i | 0 <= i < |line|
      ensures line[i] != '\n'
    {
      if i < |d| {
        assert line[i] == d[i];
      } else if i > |d| {
        assert line[i] == t[i - |d| - 1];
      }
    }
  }

  /** Joining two texts without line breaks gives none. */
  lemma NoNewlineConcat(a: string, b: string)
    requires '\n' !in a && '\n' !in b
    ensures '\n' !in a + b
  {
    forall i | 0 <= i < |a + b|
      ensures (a + b)[i] != '\n'
    {
      if i < |a| {
        assert (a + b)[i] == a[i];
      } else {
        assert (a + b)[i] == b[i - |a|];
      }
    }
  }

  /** With well-behaved oracles the image line holds no line break either. */
  lemma ImagePreviewLine(index: uint64, size: string, img: ImageInfo)
    requires '\n' !in size && '\n' !in img.format
    ensures '\n' !in ImagePreview(index, size, img)
  {
    var d, w, h := Decimal(index), Decimal(img.width), Decimal(img.height);
    DecimalNoNewline(index);
    DecimalNoNewline(img.width);
    DecimalNoNewline(img.height);
    var acc := d;
    NoNewlineConcat(acc, FIELD_SEP);
    acc := acc + FIELD_SEP;
    NoNewlineConcat(acc, "[[ binary data ");
    acc := acc + "[[ binary data ";
    NoNewlineConcat(acc, size);
    acc := acc + size;
    NoNewlineConcat(acc, " ");
    acc := acc + " ";
    NoNewlineConcat(acc, img.format);
    acc := acc + img.format;
    NoNewlineConcat(acc, " ");
    acc := acc + " ";
    NoNewlineConcat(acc, w);
    acc := acc + w;
    NoNewlineConcat(acc, "x");
    acc := acc + "x";
    NoNewlineConcat(acc, h);
    acc := acc + h;
    NoNewlineConcat(acc, " ]]");
    acc := acc + " ]]";
    assert acc == ImagePreview(index, size, img);
  }

  /** Every preview line, image or text, holds no line break when the oracles are well-behaved. */
  lemma PreviewNoNewline(index: uint64, data: seq<uint8>, width: nat, o: Oracles)
    requires ValidOracles(o) || o.probe(data).None?
    ensures '\n' !in Preview(index, data, width, o)
  {
    match o.probe(data)
    case Some(img) =>
      ImagePreviewLine(index, o.sizeStr(|data|), img);
    case None =>
      TextPreviewLine(index, o.lossy(data), width);
  }

  /** The cleaned text is normalized and has the words of the trimmed payload text. */
  lemma CleanWords(text: string)
    ensures Normalized(Clean(text)) && SplitWhitespace(Clean(text)) == SplitWhitespace(Trim(text))
  {
    SplitJoin(SplitWhitespace(Trim(text)));
  }

  lemma TrimStartSkip(c: char, t: string)
    requires IsWhitespace(c)
    ensures TrimStart([c] + t) == TrimStart(t)
  {
    assert ([c] + t)[1..] == t;
  }

  /** split_whitespace only looks at the text from its first non-whitespace char. */
  lemma SplitFromTrimmed(x: string)
    ensures SplitWhitespace(x) == SplitWhitespace(TrimStart(x))
  {
    var t := TrimStart(x);
    assert TrimStart(t) == t;
  }

  /** A run of whitespace before a word is trimmed away. */
  lemma {:induction false} TrimStartGap(gap: string, y: string)
    requires forall i :: 0 <= i < |gap| ==> IsWhitespace(gap[i])
    requires y == [] || !IsWhitespace(y[0])
    ensures TrimStart(gap + y) == y
  {
    if gap == [] {
      assert gap + y == y;
    } else {
      TrimStartSkip(gap[0], gap[1..] + y);
      assert [gap[0]] + (gap[1..] + y) == gap + y;
      TrimStartGap(gap[1..], y);
    }
  }

  /** Two words separated by a run of whitespace split into exactly those two words. */
  lemma SplitTwoWords(x: string, gap: string, y: string)
    requires x != [] && NoWhitespace(x) && y != [] && NoWhitespace(y)
    requires gap != [] && forall i :: 0 <= i < |gap| ==> IsWhitespace(gap[i])
    ensures SplitWhitespace(x + (gap + y)) == [x, y]
  {
    assert (gap + y)[0] == gap[0];
    SplitWordThen(x, gap + y);
    TrimStartGap(gap, y);
    SplitFromTrimmed(gap + y);
    assert y + [] == y;
    SplitWordThen(y, []);
  }

  /** Text that starts and ends with non-whitespace is its own trim. */
  lemma TrimmedAlready(s: string)
    requires s != [] && !IsWhitespace(s[0]) && !IsWhitespace(s[|s| - 1])
    ensures Trim(s) == s
  {
  }

  /**
   * Two words separated by any run of whitespace preview as the two words
   * separated by one space, when they fit in the width.
   */
  lemma TwoWordsPreview(index: uint64, x: string, gap: string, y: string, width: nat)
    requires x != [] && NoWhitespace(x) && y != [] && NoWhitespace(y)
    requires gap != [] && forall i :: 0 <= i < |gap| ==> IsWhitespace(gap[i])
    requires |x| + 1 + |y| <= width
    ensures TextPreview(index, x + gap + y, width) == Decimal(index) + FIELD_SEP + x + " " + y
  {
    var s := x + (gap + y);
    assert x + gap + y == s;
    assert s[0] == x[0] && s[|s| - 1] == y[|y| - 1];
    TrimmedAlready(s);
    SplitTwoWords(x, gap, y);
    JoinStep([x, y], " ");
    assert [x, y][1..] == [y];
    assert Clean(s) == x + (" " + y);
  }

  /** The text preview of payload index 5 reading "hello   world" at width 100. */
  lemma TextPreviewExample(text: string)
    requires text == "hello   world"
    ensures TextPreview(5, text, 100) == "5\thello world"
  {
    var x, gap, y := "hello", "   ", "world";
    assert NoWhitespace(x) && NoWhitespace(y);
    assert x + gap + y == text;
    TwoWordsPreview(5, x, gap, y, 100);
    assert Decimal(5) == "5";
    assert "5" + "\t" + x + " " + y == "5\thello world";
  }

  // ---------------------------------------------------------------------------
  // The listing
  // ---------------------------------------------------------------------------

  /** The ids of the entries, newest first: the order `list` visits them. */
  function ListIds(s: seq<Entry>): (ids: seq<uint64>)
    requires forall e :: e in s ==> |e.key| >= 8
    ensures |ids| == |s|
  {
    seq(|s|, i requires 0 <= i < |s| => Btoi(s[|s| - 1 - i].key))
  }

  lemma ListLineAt(s: seq<Entry>, width: nat, o: Oracles, i: nat)
    requires forall e :: e in s ==> |e.key| >= 8
    requires i < |s|
    ensures s[|s| - 1 - i] in s
    ensures ListIds(s)[i] == Btoi(s[|s| - 1 - i].key)
    ensures ListLines(s, width, o)[i] == Preview(ListIds(s)[i], s[|s| - 1 - i].value, width, o)
  {
  }

  lemma ListIdAt(s: seq<Entry>, i: nat)
    requires forall e :: e in s ==> |e.key| >= 8
    requires i < |s|
    ensures ListIds(s)[i] == Btoi(s[|s| - 1 - i].key)
  {
  }

  /** Along sorted contents with issued keys, the ids increase. */
  lemma IdsIncrease(s: seq<Entry>, sequence: uint64, p: nat, q: nat)
    requires Sorted(s) && KeysIssued(s, sequence) && p < q < |s|
    ensures Btoi(s[p].key) < Btoi(s[q].key)
  {
    assert s[p] in s && s[q] in s;
    BtoiRoundTrip(s[p].key);
    BtoiRoundTrip(s[q].key);
    ItobOrder(Btoi(s[p].key), Btoi(s[q].key));
  }

  /** Every listed line starts with the id of its entry, so `extract_id` recovers it. */
  lemma ListLinesIds(s: seq<Entry>, sequence: uint64, width: nat, o: Oracles)
    requires Sorted(s) && KeysIssued(s, sequence)
    ensures forall i :: 0 <= i < |s| ==> ExtractId(ListLines(s, width, o)[i]) == Ok(ListIds(s)[i])
  {
    forall i | 0 <= i < |s|
      ensures ExtractId(ListLines(s, width, o)[i]) == Ok(ListIds(s)[i])
    {
      ListLineAt(s, width, o, i);
      PreviewId(ListIds(s)[i], s[|s| - 1 - i].value, width, o);
    }
  }

  /** The ids strictly decrease down the listing: newest entry first. */
  lemma ListIdsDecrease(s: seq<Entry>, sequence: uint64)
    requires Sorted(s) && KeysIssued(s, sequence)
    ensures forall i, j :: 0 <= i < j < |s| ==> ListIds(s)[i] > ListIds(s)[j]
  {
    forall i, j | 0 <= i < j < |s|
      ensures ListIds(s)[i] > ListIds(s)[j]
    {
      ListIdAt(s, i);
      ListIdAt(s, j);
      IdsIncrease(s, sequence, |s| - 1 - j, |s| - 1 - i);
    }
  }

  /** Written output read from the front: the first line, a newline, then the rest. */
  lemma {:induction false} WrittenFront(ls: seq<string>)
    requires ls != []
    ensures Written(ls) == ls[0] + "\n" + Written(ls[1..])
  {
    if |ls| > 1 {
      var n := |ls| - 1;
      WrittenFront(ls[..n]);
      assert ls[..n][0] == ls[0] && ls[..n][1..] == ls[1..][..n - 1];
      assert ls[1..][n - 1] == ls[n];
    } else {
      assert ls[..0] == [] && ls[1..] == [];
    }
  }

  /** Lines without line breaks, each written with a newline, are read back as the same lines. */
  lemma {:induction false} SplitWritten(ls: seq<string>)
    requires forall i :: 0 <= i < |ls| ==> '\n' !in ls[i]
    ensures SplitLines(Written(ls)) == ls
    decreases |ls|
  {
    if ls != [] {
      WrittenFront(ls);
      CutFirst(ls[0], '\n', Written(ls[1..]));
      assert ls[0] + "\n" + Written(ls[1..]) == ls[0] + ['\n'] + Written(ls[1..]);
      forall i | 0 <= i < |ls| - 1
        ensures '\n' !in ls[1..][i]
      {
        assert ls[1..][i] == ls[i + 1];
      }
      SplitWritten(ls[1..]);
      assert ls == [ls[0]] + ls[1..];
    }
  }

  /** With well-behaved oracles, every listing reads back as one line per entry. */
  lemma ListLinesRead(s: seq<Entry>, sequence: uint64, width: nat, o: Oracles)
    requires Sorted(s) && KeysIssued(s, sequence) && ValidOracles(o)
    ensures SplitLines(Written(ListLines(s, width, o))) == ListLines(s, width, o)
    ensures |SplitLines(Written(ListLines(s, width, o)))| == |s|
  {
    forall i | 0 <= i < |s|
      ensures '\n' !in ListLines(s, width, o)[i]
    {
      ListLineAt(s, width, o, i);
      PreviewNoNewline(ListIds(s)[i], s[|s| - 1 - i].value, width, o);
    }
    SplitWritten(ListLines(s, width, o));
  }

  /** When no payload is an image, the listing reads back as one line per entry. */
  lemma ListTextLines(s: seq<Entry>, sequence: uint64, width: nat, o: Oracles)
    requires Sorted(s) && KeysIssued(s, sequence)
    requires forall e :: e in s ==> o.probe(e.value).None?
    ensures SplitLines(Written(ListLines(s, width, o))) == ListLines(s, width, o)
    ensures |SplitLines(Written(ListLines(s, width, o)))| == |s|
  {
    forall i | 0 <= i < |s|
      ensures '\n' !in ListLines(s, width, o)[i]
    {
      ListLineAt(s, width, o, i);
      TextPreviewLine(ListIds(s)[i], o.lossy(s[|s| - 1 - i].value), width);
    }
    SplitWritten(ListLines(s, width, o));
  }

  /**
   * `list`: walk the bucket from the last key to the first, writing one
   * preview line and a newline per entry. Nothing is written to the bucket.
   */
  method List(db: Bucket, previewWidth: uint64, o: Oracles) returns (out: string)
    requires db.Valid()
    ensures out == Written(ListLines(db.items, previewWidth, o))
  {
    out := "";
    var i := |db.items|;
    ghost var lines := ListLines(db.items, previewWidth, o);
    assert lines[..0] == [];
    while i > 0
      invariant 0 <= i <= |db.items|
      invariant out == Written(lines[..|db.items| - i])
    {
      var e := db.items[i - 1];
      var k := |db.items| - i;
      ListLineAt(db.items, previewWidth, o, k);
      WrittenSnoc(lines, k + 1);
      out := out + Preview(Btoi(e.key), e.value, previewWidth, o) + "\n";
      i := i - 1;
    }
    FullPrefix(lines);
  }
}
