/**
  The layered context loader: the summary (L0), the key sections (L1) or the full text (L2)
  of a stored object, with a memory cache in front of L0 and a disk cache behind L1.
 */
module ContextLoader {
  import opened Wrappers

  type Cid = string

  datatype Layer = L0 | L1 | L2

  const USIZE_MAX: nat := 0xFFFF_FFFF_FFFF_FFFF
  /** The source calls it a number of characters and compares it with bytes. */
  const L1_BYTE_LIMIT: nat := 8_000

  function TokensApprox(layer: Layer): nat {
    match layer
    case L0 => 100
    case L1 => 2000
    case L2 => USIZE_MAX
  }

  // Words

  /** Unicode white space. */
  predicate White(c: char) {
    || '\U{0009}' <= c <= '\U{000D}' || c == ' ' || c == '\U{0085}' || c == '\U{00A0}' || c == '\U{1680}'
    || '\U{2000}' <= c <= '\U{200A}' || c == '\U{2028}' || c == '\U{2029}' || c == '\U{202F}'
    || c == '\U{205F}' || c == '\U{3000}'
  }

  lemma WhiteExact(c: char)
    ensures White(c) <==>
            c as int in {9, 10, 11, 12, 13, 32, 133, 160, 5760, 8192, 8193, 8194, 8195, 8196, 8197, 8198, 8199, 8200,
                         8201, 8202, 8232, 8233, 8239, 8287, 12288}
  {
  }

  predicate IsWord(w: string) {
    w != "" && forall i :: 0 <= i < |w| ==> !White(w[i])
  }

  function Split(s: string, word: string): seq<string> {
    if s == "" then (if word == "" then [] else [word])
    else if White(s[0]) then (if word == "" then [] else [word]) + Split(s[1..], "")
    else Split(s[1..], word + [s[0]])
  }

  /** The maximal runs of characters that are not white space. */
  function Words(s: string): seq<string> {
    Split(s, "")
  }

  function Join(words: seq<string>): string {
    if |words| == 0 then ""
    else if |words| == 1 then words[0]
    else words[0] + " " + Join(words[1..])
  }

  lemma {:induction false} SplitWord(w: string, rest: string, word: string)
    requires forall i :: 0 <= i < |w| ==> !White(w[i])
    ensures Split(w + rest, word) == Split(rest, word + w)
  {
    if w == "" {
      assert w + rest == rest && word + w == word;
    } else {
      assert (w + rest)[1..] == w[1..] + rest;
      SplitWord(w[1..], rest, word + [w[0]]);
      assert word + [w[0]] + w[1..] == word + w;
    }
  }

  lemma {:induction false} SplitIsWords(s: string, word: string)
    requires word == "" || IsWord(word)
    ensures forall i :: 0 <= i < |Split(s, word)| ==> IsWord(Split(s, word)[i])
  {
    if s != "" {
      if White(s[0]) {
        SplitIsWords(s[1..], "");
      } else {
        SplitIsWords(s[1..], word + [s[0]]);
      }
    }
  }

  function Flatten(words: seq<string>): string {
    if |words| == 0 then "" else words[0] + Flatten(words[1..])
  }

  function NonWhite(s: string): string {
    if s == "" then "" else (if White(s[0]) then "" else [s[0]]) + NonWhite(s[1..])
  }

  /** The words hold every character that is not white space, in order, and no other. */
  lemma {:induction false} SplitKeeps(s: string, word: string)
    ensures Flatten(Split(s, word)) == word + NonWhite(s)
  {
    if s != "" {
      if White(s[0]) {
        SplitKeeps(s[1..], "");
        var rest := Split(s[1..], "");
        assert Split(s, word) == (if word == "" then [] else [word]) + rest;
        assert word != "" ==> ([word] + rest)[1..] == rest;
        assert word == "" ==> [] + rest == rest;
      } else {
        SplitKeeps(s[1..], word + [s[0]]);
      }
    }
  }

  /** Splitting what was joined gives the words back. */
  lemma {:induction false} JoinRoundTrip(words: seq<string>)
    requires forall i :: 0 <= i < |words| ==> IsWord(words[i])
    ensures Words(Join(words)) == words
  {
    if |words| == 1 {
      SplitWord(words[0], "", "");
      assert words[0] + "" == words[0] && "" + words[0] == words[0];
    } else if |words| > 1 {
      JoinRoundTrip(words[1..]);
      WordThenRest(words[0], Join(words[1..]));
    }
  }

  lemma WordThenRest(word: string, rest: string)
    requires IsWord(word)
    ensures Words(word + " " + rest) == [word] + Words(rest)
  {
    assert word + " " + rest == word + (" " + rest) && "" + word == word;
    SplitWord(word, " " + rest, "");
    assert (" " + rest)[1..] == rest;
  }

  lemma {:induction false} JoinAppend(a: seq<string>, b: seq<string>)
    requires |a| > 0 && |b| > 0
    ensures Join(a + b) == Join(a) + " " + Join(b)
  {
    if |a| == 1 {
      assert (a + b)[1..] == b;
    } else {
      assert (a + b)[1..] == a[1..] + b;
      JoinAppend(a[1..], b);
    }
  }

  function Tokens(content: string): nat {
    |Words(content)| * 3 / 4
  }

  /** The first ten and the last ten words of a text of more than twenty. */
  function HeuristicSummary(content: string): string {
    var words := Words(content);
    if |words| <= 20 then content
    else Join(words[..10]) + " ... " + Join(words[|words| - 10..])
  }

  /** The heuristic never needs more than 21 words, so its estimate stays far below the nominal size of L0. */
  lemma SummaryWords(content: string)
    ensures var words := Words(content);
            |words| > 20 ==> Words(HeuristicSummary(content)) == words[..10] + ["..."] + words[|words| - 10..]
    ensures |Words(content)| <= 20 ==> HeuristicSummary(content) == content
    ensures Tokens(HeuristicSummary(content)) <= 15 < TokensApprox(L0) == 100
  {
    var words := Words(content);
    if |words| > 20 {
      SplitIsWords(content, "");
      var first, last := words[..10], words[|words| - 10..];
      var all := first + ["..."] + last;
      JoinAppend(first + ["..."], last);
      JoinAppend(first, ["..."]);
      assert Join(first) + " " + "..." + " " + Join(last) == Join(first) + " ... " + Join(last);
      assert IsWord("...");
      JoinRoundTrip(all);
    }
  }

  // Cutting text by bytes

  /** The bytes of a character in UTF-8. */
  function Width(c: char): nat {
    if c as int < 0x80 then 1 else if c as int < 0x800 then 2 else if c as int < 0x1_0000 then 3 else 4
  }

  /** The code point that the bytes of one character stand for, section 3 of RFC 3629. */
  function CodePoint(bytes: seq<int>): int {
    if |bytes| == 1 then bytes[0]
    else if |bytes| == 2 then (bytes[0] - 0xC0) * 64 + bytes[1] - 0x80
    else if |bytes| == 3 then ((bytes[0] - 0xE0) * 64 + bytes[1] - 0x80) * 64 + bytes[2] - 0x80
    else if |bytes| == 4 then
      (((bytes[0] - 0xF0) * 64 + bytes[1] - 0x80) * 64 + bytes[2] - 0x80) * 64 + bytes[3] - 0x80
    else 0
  }

  /** The first byte tells the length, every later byte says that it continues, and no shorter form is allowed. */
  predicate Encodes(bytes: seq<int>, c: char) {
    && 1 <= |bytes| <= 4
    && (|bytes| == 1 ==> 0 <= bytes[0] < 0x80)
    && (|bytes| == 2 ==> 0xC2 <= bytes[0] < 0xE0)
    && (|bytes| == 3 ==> 0xE0 <= bytes[0] < 0xF0 && (bytes[0] == 0xE0 ==> 0xA0 <= bytes[1]))
    && (|bytes| == 4 ==> 0xF0 <= bytes[0] < 0xF5 && (bytes[0] == 0xF0 ==> 0x90 <= bytes[1]))
    && (forall i :: 1 <= i < |bytes| ==> 0x80 <= bytes[i] < 0xC0)
    && CodePoint(bytes) == c as int
  }

  /** The encoding of a character. */
  function Utf8(c: char): (bytes: seq<int>)
    ensures Encodes(bytes, c)
  {
    var n := c as int;
    var (n1, n2, n3) := (n / 64, n / 64 / 64, n / 64 / 64 / 64);
    if n < 0x80 then [n]
    else if n < 0x800 then [0xC0 + n1, 0x80 + n % 64]
    else if n < 0x1_0000 then [0xE0 + n2, 0x80 + n1 % 64, 0x80 + n % 64]
    else [0xF0 + n3, 0x80 + n2 % 64, 0x80 + n1 % 64, 0x80 + n % 64]
  }

  /** Every encoding of a character has its width. */
  lemma WidthExact(c: char, bytes: seq<int>)
    requires Encodes(bytes, c)
    ensures |bytes| == Width(c)
  {
  }

  function Bytes(s: string): nat {
    if s == "" then 0 else Width(s[0]) + Bytes(s[1..])
  }

  /** The first `limit` bytes of a text, if they are whole characters; slicing elsewhere panics. */
  function Cut(s: string, limit: nat): Option<string> {
    if limit == 0 then Some("")
    else if s == "" || Width(s[0]) > limit then None
    else
      var rest := Cut(s[1..], limit - Width(s[0]));
      if rest.None? then None else Some([s[0]] + rest.value)
  }

  /** Byte `limit` of the text is not the first of its character. */
  ghost predicate Inside(s: string, limit: nat) {
    exists n :: 0 <= n < |s| && Bytes(s[..n]) < limit < Bytes(s[..n + 1])
  }

  lemma BytesNext(s: string, n: nat)
    requires 0 < n <= |s|
    ensures Bytes(s[..n]) == Width(s[0]) + Bytes(s[1..][..n - 1])
  {
    assert s[..n][1..] == s[1..][..n - 1];
  }

  /** A cut is the prefix of that many bytes. */
  lemma {:induction false} CutPrefix(s: string, limit: nat)
    requires Cut(s, limit).Some?
    ensures var t := Cut(s, limit).value;
            t <= s && Bytes(t) == limit
  {
    if limit > 0 {
      CutPrefix(s[1..], limit - Width(s[0]));
      var t := Cut(s, limit).value;
      assert t[1..] == Cut(s[1..], limit - Width(s[0])).value;
    }
  }

  /** In a text that is long enough a cut panics exactly inside a character. */
  lemma {:induction false} CutExact(s: string, limit: nat)
    requires Bytes(s) >= limit
    ensures Cut(s, limit).None? <==> Inside(s, limit)
  {
    if limit > 0 {
      var w := Width(s[0]);
      assert Bytes(s[..0]) == 0;
      BytesNext(s, 1);
      assert s[1..][..0] == "";
      if w > limit {
        assert Bytes(s[..0]) < limit < Bytes(s[..0 + 1]);
      } else {
        CutExact(s[1..], limit - w);
        InsideNext(s, limit);
      }
    }
  }

  lemma InsideNext(s: string, limit: nat)
    requires s != "" && limit >= Width(s[0])
    ensures Inside(s, limit) <==> Inside(s[1..], limit - Width(s[0]))
  {
    if Inside(s, limit) {
      InsideRest(s, limit);
    }
    if Inside(s[1..], limit - Width(s[0])) {
      var n :| 0 <= n < |s[1..]| && Bytes(s[1..][..n]) < limit - Width(s[0]) < Bytes(s[1..][..n + 1]);
      BytesNext(s, n + 1);
      BytesNext(s, n + 2);
      assert Bytes(s[..n + 1]) < limit < Bytes(s[..n + 1 + 1]);
    }
  }

  lemma InsideRest(s: string, limit: nat)
    requires s != "" && limit >= Width(s[0]) && Inside(s, limit)
    ensures Inside(s[1..], limit - Width(s[0]))
  {
    var n :| 0 <= n < |s| && Bytes(s[..n]) < limit < Bytes(s[..n + 1]);
    BytesNext(s, n + 1);
    assert n > 0;
    BytesNext(s, n);
    assert Bytes(s[1..][..n - 1]) < limit - Width(s[0]) < Bytes(s[1..][..n - 1 + 1]);
  }

  // What the loader can reach

  type Summarizer = (string, Layer) -> Option<string>

  datatype Shelf = Shelf(
    cache: map<Cid, string>,
    summaries: map<Cid, string>,
    sections: map<Cid, string>,
    objects: map<Cid, string>,
    summarizer: Option<Summarizer>)

  function Raw(shelf: Shelf, cid: Cid): string {
    if cid in shelf.objects then shelf.objects[cid] else ""
  }

  function Summarized(shelf: Shelf, cid: Cid, layer: Layer): Option<string> {
    if shelf.summarizer.Some? then shelf.summarizer.value(Raw(shelf, cid), layer) else None
  }

  /** What loading a layer comes to; only the full text can be missing. */
  datatype Reading = Has(text: string) | Missing | Panics

  function PrefixTruncate(raw: string): Reading {
    if Bytes(raw) <= L1_BYTE_LIMIT then Has(raw)
    else if Cut(raw, L1_BYTE_LIMIT).None? then Panics
    else Has(Cut(raw, L1_BYTE_LIMIT).value)
  }

  /** A cid splits into the directory and the name of its summary files. */
  predicate Splits(cid: Cid) {
    Cut(cid, 2).Some?
  }

  function Text(shelf: Shelf, cid: Cid, layer: Layer): Reading {
    match layer
    case L0 =>
      if cid in shelf.cache then Has(shelf.cache[cid])
      else if !Splits(cid) then Panics
      else if cid in shelf.summaries then Has(shelf.summaries[cid])
      else if |Words(Raw(shelf, cid))| > 20 && Summarized(shelf, cid, L0).Some? then
        Has(Summarized(shelf, cid, L0).value)
      else Has(HeuristicSummary(Raw(shelf, cid)))
    case L1 =>
      if !Splits(cid) then Panics
      else if cid in shelf.sections then Has(shelf.sections[cid])
      else if Summarized(shelf, cid, L1).Some? then Has(Summarized(shelf, cid, L1).value)
      else PrefixTruncate(Raw(shelf, cid))
    case L2 =>
      if cid in shelf.objects then Has(shelf.objects[cid]) else Missing
  }

  /** L1 has to be cut out of the full text, and the cut falls inside a character. */
  ghost predicate CutInside(shelf: Shelf, cid: Cid) {
    && cid !in shelf.sections && Summarized(shelf, cid, L1).None?
    && Bytes(Raw(shelf, cid)) > L1_BYTE_LIMIT && Inside(Raw(shelf, cid), L1_BYTE_LIMIT)
  }

  /** Loading L1 panics exactly for a cid that does not split and for a text that is cut inside a character. */
  lemma PanicExact(shelf: Shelf, cid: Cid)
    ensures Text(shelf, cid, L1).Panics? <==> !Splits(cid) || CutInside(shelf, cid)
    ensures Text(shelf, cid, L0).Panics? ==> !Splits(cid)
    ensures !Text(shelf, cid, L2).Panics? && !Text(shelf, cid, L1).Missing? && !Text(shelf, cid, L0).Missing?
  {
    hide Cut, Words, Inside, HeuristicSummary;
    if Bytes(Raw(shelf, cid)) > L1_BYTE_LIMIT {
      CutExact(Raw(shelf, cid), L1_BYTE_LIMIT);
    }
  }

  /** What is loaded as L1 without a summary is a prefix, whole unless it has the most bytes allowed. */
  lemma TruncatedPrefix(raw: string)
    requires PrefixTruncate(raw).Has?
    ensures var t := PrefixTruncate(raw).text;
            t <= raw && Bytes(t) <= L1_BYTE_LIMIT && (t == raw || Bytes(t) == L1_BYTE_LIMIT)
  {
    if Bytes(raw) > L1_BYTE_LIMIT {
      CutPrefix(raw, L1_BYTE_LIMIT);
    }
  }

  /** L0 is made up on the spot and is not what a summarizer would have given. */
  predicate Degraded(shelf: Shelf, cid: Cid) {
    && cid !in shelf.cache && cid !in shelf.summaries
    && (|Words(Raw(shelf, cid))| <= 20 || Summarized(shelf, cid, L0).None?)
  }

  /** Two shelves that no reader can tell apart by what they load. */
  ghost predicate SameTexts(a: Shelf, b: Shelf) {
    forall cid, layer :: Text(a, cid, layer) == Text(b, cid, layer)
  }

  datatype Loaded = Loaded(cid: Cid, layer: Layer, content: string, tokens: nat, actual: Layer, degraded: bool)

  /** The end of a load: its result, an error, or a panic. */
  datatype Outcome = Got(loaded: Loaded) | Failed | Panicked

  /** The outcome says what the text says. */
  predicate Reports(r: Outcome, text: Reading, cid: Cid, layer: Layer) {
    match r
    case Got(l) =>
      text == Has(l.content) && l.cid == cid && l.layer == layer && l.tokens == Tokens(l.content)
    case Failed => text.Missing?
    case Panicked => text.Panics?
  }

  class Loader {
    var shelf: Shelf

    constructor (shelf: Shelf)
      ensures this.shelf == shelf
    {
      this.shelf := shelf;
    }

    /** Fills the cache; the estimate is read off the returned text. */
    method LoadL0(cid: Cid) returns (r: Outcome)
      modifies this
      ensures SameTexts(old(shelf), shelf)
      ensures shelf == old(shelf).(cache := shelf.cache)
      ensures shelf.cache.Keys == old(shelf.cache).Keys + if r.Got? then {cid} else {}
      ensures Reports(r, Text(old(shelf), cid, L0), cid, L0) && !r.Failed?
      ensures r.Got? ==> (r.loaded.degraded <==> Degraded(old(shelf), cid))
      ensures r.Got? ==> (r.loaded.actual == L2 <==> r.loaded.degraded && |Words(Raw(old(shelf), cid))| <= 20)
      ensures r.Got? ==> !Degraded(shelf, cid)
    {
      hide Words, HeuristicSummary, Cut;
      SummaryWords(Raw(shelf, cid));
      if cid in shelf.cache {
        var content := shelf.cache[cid];
        return Got(Loaded(cid, L0, content, Tokens(content), L0, false));
      }
      if !Splits(cid) {
        return Panicked;
      }
      var content, actual, degraded;
      if cid in shelf.summaries {
        content, actual, degraded := shelf.summaries[cid], L0, false;
      } else {
        var raw := Raw(shelf, cid);
        if |Words(raw)| <= 20 {
          content, actual, degraded := raw, L2, true;
        } else {
          var summary := Summarized(shelf, cid, L0);
          if summary.Some? {
            content, actual, degraded := summary.value, L0, false;
          } else {
            content, actual, degraded := HeuristicSummary(raw), L0, true;
          }
        }
      }
      shelf := shelf.(cache := shelf.cache[cid := content]);
      return Got(Loaded(cid, L0, content, Tokens(content), actual, degraded));
    }

    /** Keeps a fresh summary on disk, when that succeeds; cuts the full text where there is none. */
    method LoadL1(cid: Cid) returns (r: Outcome)
      modifies this
      ensures SameTexts(old(shelf), shelf)
      ensures shelf == old(shelf).(sections := shelf.sections)
      ensures Reports(r, Text(old(shelf), cid, L1), cid, L1) && !r.Failed?
      ensures r.Got? ==> r.loaded.actual == L1 && !r.loaded.degraded
      ensures r.Panicked? <==> !Splits(cid) || CutInside(old(shelf), cid)
    {
      hide Words, HeuristicSummary, Cut, Bytes, Inside;
      PanicExact(shelf, cid);
      if !Splits(cid) {
        return Panicked;
      }
      var content;
      if cid in shelf.sections {
        content := shelf.sections[cid];
      } else {
        var summary := Summarized(shelf, cid, L1);
        if summary.Some? {
          content := summary.value;
          var stored: bool := *;
          if stored {
            shelf := shelf.(sections := shelf.sections[cid := content]);
          }
        } else {
          var prefix := PrefixTruncate(Raw(shelf, cid));
          if prefix.Panics? {
            return Panicked;
          }
          content := prefix.text;
        }
      }
      return Got(Loaded(cid, L1, content, Tokens(content), L1, false));
    }

    method Load(cid: Cid, layer: Layer) returns (r: Outcome)
      modifies this
      ensures SameTexts(old(shelf), shelf) && old(shelf.cache).Keys <= shelf.cache.Keys
      ensures layer == L0 && r.Got? ==> cid in shelf.cache
      ensures Reports(r, Text(old(shelf), cid, layer), cid, layer)
      ensures r.Got? ==> r.loaded.tokens == |Words(r.loaded.content)| * 3 / 4
      ensures layer == L2 ==>
                if cid in shelf.objects then r.Got? && r.loaded.content == shelf.objects[cid] else r.Failed?
      ensures layer == L1 && r.Got? && cid in old(shelf).sections ==> r.loaded.content == old(shelf).sections[cid]
      ensures layer == L1 && r.Got? && cid !in old(shelf).sections && shelf.summarizer.Some? ==>
                var answer := shelf.summarizer.value(if cid in shelf.objects then shelf.objects[cid] else "", L1);
                answer.Some? ==> r.loaded.content == answer.value
      ensures layer == L0 && cid in old(shelf).cache ==> r.Got? && r.loaded.content == old(shelf).cache[cid]
      ensures layer == L0 && r.Got? && cid !in old(shelf).cache && cid in shelf.summaries ==>
                r.loaded.content == shelf.summaries[cid]
      ensures && layer == L0 && r.Got? && cid !in old(shelf).cache && cid !in shelf.summaries
              && cid in shelf.objects && |Words(shelf.objects[cid])| > 20 && shelf.summarizer.Some?
              ==>
                var answer := shelf.summarizer.value(shelf.objects[cid], L0);
                answer.Some? ==> r.loaded.content == answer.value
      ensures shelf.objects == old(shelf).objects && shelf.summaries == old(shelf).summaries
      ensures shelf.summarizer == old(shelf).summarizer
      ensures r.Got? ==> (r.loaded.degraded <==> layer == L0 && Degraded(old(shelf), cid))
    {
      hide Words, Cut;
      match layer
      case L0 =>
        r := LoadL0(cid);
      case L1 =>
        r := LoadL1(cid);
      case L2 =>
        if cid !in shelf.objects {
          return Failed;
        }
        return Got(Loaded(cid, L2, shelf.objects[cid], Tokens(shelf.objects[cid]), L2, false));
    }
  }
}
