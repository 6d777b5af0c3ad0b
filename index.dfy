/** `main` (index.js): the scraper's steps in order, then the saved
    outputs: the scraped records as JSON, the original headers, and, once
    the translator answers, the translated headers and the report of the
    words repeated across them. */
module Index {
  import opened Wrappers
  import opened JsBuiltins
  import opened FileHelper
  import opened Scraper
  import opened Analyzer

  // ---------------------------------------------------------------------
  // headers

  /** `articles.map(a => a.title)` */
  function Titles(articles: seq<Article>): (headers: seq<string>)
    ensures |headers| == |articles|
    ensures forall i :: 0 <= i < |articles| ==> headers[i] == articles[i].title
  {
    if articles == [] then []
    else Titles(articles[..|articles| - 1]) + [articles[|articles| - 1].title]
  }

  /** The lines of `headers_original.txt` are the titles, one per record
      and in order, as long as no title spans several lines. */
  lemma OriginalHeaderLines(articles: seq<Article>)
    requires |articles| >= 1
    requires forall i :: 0 <= i < |articles| ==> '\n' !in articles[i].title
    ensures Split(Join(Titles(articles), '\n'), '\n') == Titles(articles)
  {
    JoinSplit(Titles(articles), '\n');
  }

  /** What `Array.prototype.join` writes for one element: `null` and
      `undefined` become the empty string. */
  function JoinText(v: JsStr): string {
    if v.Str? then v.s else ""
  }

  function Texts(items: seq<JsStr>): (ts: seq<string>)
    ensures |ts| == |items|
    ensures forall i :: 0 <= i < |items| ==> ts[i] == JoinText(items[i])
  {
    if items == [] then []
    else Texts(items[..|items| - 1]) + [JoinText(items[|items| - 1])]
  }

  /** `translated.join('\n')` */
  function JoinLines(items: seq<JsStr>): string {
    Join(Texts(items), '\n')
  }

  /** The lines of `headers_translated.txt` are the translations, one per
      element and in order (an empty line for `null` or `undefined`), as
      long as no translation spans several lines. */
  lemma TranslatedLines(items: seq<JsStr>)
    requires |items| >= 1
    requires forall i :: 0 <= i < |items| ==> '\n' !in JoinText(items[i])
    ensures Split(JoinLines(items), '\n') == Texts(items)
  {
    JoinSplit(Texts(items), '\n');
  }

  // ---------------------------------------------------------------------
  // the analysis report

  /** One `[word, count]` pair of `Object.entries(repeatedWords)`. */
  datatype Entry = Entry(word: string, count: nat)

  /** `es` lists the entries of `m`, each key exactly once, in some order. */
  predicate ListsMap(es: seq<Entry>, m: map<string, nat>) {
    && (forall k :: 0 <= k < |es| ==> es[k].word in m && es[k].count == m[es[k].word])
    && (forall w :: w in m ==> exists k :: 0 <= k < |es| && es[k].word == w)
    && (forall j, k :: 0 <= j < k < |es| ==> es[j].word != es[k].word)
  }

  /** Every map has a list of its entries (the one `Object.entries`
      returns, in an order the model leaves open). */
  lemma EntriesExist(m: map<string, nat>)
    ensures exists es :: ListsMap(es, m)
    decreases |m|
  {
    if m == map[] {
      assert ListsMap([], m);
    } else {
      var w :| w in m;
      var rest := m - {w};
      assert rest.Keys == m.Keys - {w};
      EntriesExist(rest);
      var es: seq<Entry> :| ListsMap(es, rest);
      EntryCons(m, w, es);
    }
  }

  lemma EntryCons(m: map<string, nat>, w: string, es: seq<Entry>)
    requires w in m && ListsMap(es, m - {w})
    ensures ListsMap([Entry(w, m[w])] + es, m)
  {
    var all := [Entry(w, m[w])] + es;
    forall v | v in m ensures exists k :: 0 <= k < |all| && all[k].word == v {
      if v == w {
        assert all[0].word == v;
      } else {
        assert v in m - {w};
        var k :| 0 <= k < |es| && es[k].word == v;
        assert all[k + 1].word == v;
      }
    }
  }

  /** Counts never increase along `es`. */
  predicate SortedByCount(es: seq<Entry>) {
    forall j, k :: 0 <= j < k < |es| ==> es[j].count >= es[k].count
  }

  /** `e` placed after every entry of `s` with at least its count. */
  function Insert(e: Entry, s: seq<Entry>): (r: seq<Entry>)
    ensures multiset(r) == multiset(s) + multiset{e}
  {
    if s == [] || s[0].count < e.count then [e] + s
    else
      assert s == [s[0]] + s[1..];
      [s[0]] + Insert(e, s[1..])
  }

  lemma {:induction false} InsertSorted(e: Entry, s: seq<Entry>)
    requires SortedByCount(s)
    ensures SortedByCount(Insert(e, s))
  {
    if s != [] && s[0].count >= e.count {
      var rest := Insert(e, s[1..]);
      InsertSorted(e, s[1..]);
      forall x | x in rest ensures x.count <= s[0].count {
        assert x in multiset(rest);
      }
    }
  }

  /** `.sort((a, b) => b[1] - a[1])`: by non-increasing count, and stable,
      as `Array.prototype.sort` is: each entry in turn goes after every
      earlier one with at least its count. */
  function SortByCount(es: seq<Entry>): (r: seq<Entry>)
    ensures SortedByCount(r)
    ensures multiset(r) == multiset(es)
  {
    if es == [] then []
    else
      var init := SortByCount(es[..|es| - 1]);
      assert es == es[..|es| - 1] + [es[|es| - 1]];
      InsertSorted(es[|es| - 1], init);
      Insert(es[|es| - 1], init)
  }

  lemma {:induction false} InsertLast(e: Entry, s: seq<Entry>)
    requires SortedByCount(s)
    requires forall k :: 0 <= k < |s| ==> s[k].count >= e.count
    ensures Insert(e, s) == s + [e]
  {
    if s != [] {
      InsertLast(e, s[1..]);
      assert s == [s[0]] + s[1..];
    }
  }

  /** Sorting entries already in order changes nothing: no two entries
      with equal counts are swapped. */
  lemma {:induction false} SortSorted(es: seq<Entry>)
    requires SortedByCount(es)
    ensures SortByCount(es) == es
  {
    if es != [] {
      var n := |es|;
      SortSorted(es[..n - 1]);
      InsertLast(es[n - 1], es[..n - 1]);
      assert es[..n - 1] + [es[n - 1]] == es;
    }
  }

  /** `` `"${word}": ${count}` `` */
  function FormatLine(e: Entry): string {
    "\"" + e.word + "\": " + NumberToString(e.count)
  }

  function FormatLines(es: seq<Entry>): (ls: seq<string>)
    ensures |ls| == |es|
    ensures forall k :: 0 <= k < |es| ==> ls[k] == FormatLine(es[k])
  {
    if es == [] then [] else [FormatLine(es[0])] + FormatLines(es[1..])
  }

  const NoRepeats := "No words appeared more than once."

  /** `word_count_analysis.txt` for the entries in `es`: the sorted
      entries, one line each, joined by "\n"; the fixed sentence when that
      text is empty. */
  function Report(es: seq<Entry>): string {
    var text := Join(FormatLines(SortByCount(es)), '\n');
    if text == "" then NoRepeats else text
  }

  /** Decimal digits, at least one. */
  predicate AllDigits(s: string) {
    s != [] && forall i :: 0 <= i < |s| ==> '0' <= s[i] <= '9'
  }

  /** Reads a report line back: a quoted word, a colon, a space and a
      decimal count. */
  function ParseLine(line: string): Option<Entry> {
    var parts := Split(line, '"');
    if |parts| == 3 && parts[0] == "" && StartsWith(parts[2], ": ") && AllDigits(parts[2][2..])
    then Some(Entry(parts[1], ParseDecimal(parts[2][2..])))
    else None
  }

  function ParseLines(lines: seq<string>): Option<seq<Entry>> {
    if lines == [] then Some([])
    else
      match (ParseLine(lines[0]), ParseLines(lines[1..]))
      case (Some(e), Some(es)) => Some([e] + es)
      case _ => None
  }

  /** Reads a report back: the fixed sentence stands for no entries. */
  function ParseReport(text: string): Option<seq<Entry>> {
    if text == NoRepeats then Some([]) else ParseLines(Split(text, '\n'))
  }

  /** A line gives back its entry when the word holds no quote. */
  lemma ParseFormatLine(e: Entry)
    requires '"' !in e.word
    ensures ParseLine(FormatLine(e)) == Some(e)
  {
    var digits := NumberToString(e.count);
    var rest := ": " + digits;
    assert rest[2..] == digits;
    assert forall i :: 0 <= i < |rest| ==> rest[i] != '"';
    assert Join([e.word, rest], '"') == e.word + "\"" + rest by {
      assert [e.word, rest][1..] == [rest];
    }
    assert Join(["", e.word, rest], '"') == "\"" + Join([e.word, rest], '"') by {
      assert ["", e.word, rest][1..] == [e.word, rest];
    }
    assert FormatLine(e) == "\"" + (e.word + "\"" + rest);
    JoinSplit(["", e.word, rest], '"');
    ParseNumberToString(e.count);
  }

  /** The words of `es` hold neither a quote nor a line break. */
  predicate Printable(es: seq<Entry>) {
    forall k :: 0 <= k < |es| ==> '"' !in es[k].word && '\n' !in es[k].word
  }

  lemma PrintablePermutation(es: seq<Entry>, ps: seq<Entry>)
    requires Printable(es) && multiset(ps) == multiset(es)
    ensures Printable(ps)
  {
    forall k | 0 <= k < |ps| ensures '"' !in ps[k].word && '\n' !in ps[k].word {
      assert ps[k] in multiset(es);
    }
  }

  lemma {:induction false} ParseFormatLines(es: seq<Entry>)
    requires Printable(es)
    ensures ParseLines(FormatLines(es)) == Some(es)
  {
    if es != [] {
      ParseFormatLine(es[0]);
      ParseFormatLines(es[1..]);
      assert FormatLines(es)[1..] == FormatLines(es[1..]);
      assert [es[0]] + es[1..] == es;
    }
  }

  lemma JoinStarts(parts: seq<string>, sep: char)
    requires |parts| >= 1
    ensures StartsWith(Join(parts, sep), parts[0])
  {
  }

  /** The report falls back to the fixed sentence exactly when there is
      nothing to report. */
  lemma ReportFallback(es: seq<Entry>)
    ensures Report(es) == NoRepeats <==> es == []
  {
    var ps := SortByCount(es);
    if es != [] {
      assert es[0] in multiset(ps);
      var lines := FormatLines(ps);
      JoinStarts(lines, '\n');
      var text := Join(lines, '\n');
      assert text[0] == '"';
    }
  }

  /** No line of the report holds a line break. */
  lemma FormatLinesSingle(es: seq<Entry>)
    requires Printable(es)
    ensures forall k :: 0 <= k < |es| ==> '\n' !in FormatLine(es[k])
  {
    forall k | 0 <= k < |es| ensures '\n' !in FormatLine(es[k]) {
      var digits := NumberToString(es[k].count);
      assert forall i :: 0 <= i < |digits| ==> digits[i] != '\n';
    }
  }

  /** Reading the report back gives exactly the sorted entries: one line
      per entry, nothing before, between or after. */
  lemma ReportRoundTrip(es: seq<Entry>)
    requires Printable(es)
    ensures ParseReport(Report(es)) == Some(SortByCount(es))
  {
    var ps := SortByCount(es);
    ReportFallback(es);
    if es == [] {
      assert |ps| == 0;
    } else {
      PrintablePermutation(es, ps);
      var lines := FormatLines(ps);
      FormatLinesSingle(ps);
      JoinSplit(lines, '\n');
      ParseFormatLines(ps);
    }
  }

  /** The report as `main` writes it for the result of the analysis: the
      fallback sentence exactly when no word repeats; otherwise a list
      that reads back as every repeated word once, with its count, by
      non-increasing count. */
  lemma ReportOfAnalysis(input: Headers, es: seq<Entry>)
    requires ListsMap(es, RepeatedWords(input))
    ensures Report(es) == NoRepeats <==> RepeatedWords(input) == map[]
    ensures var back := ParseReport(Report(es));
            back.Some? && SortedByCount(back.value) && ListsMap(back.value, RepeatedWords(input))
  {
    var m := RepeatedWords(input);
    RepeatedAreWords(input);
    forall k | 0 <= k < |es| ensures '"' !in es[k].word && '\n' !in es[k].word {
      WordSymbols(es[k].word);
    }
    ReportFallback(es);
    if m != map[] {
      var w :| w in m;
    }
    ReportRoundTrip(es);
    ListsMapPermutation(es, SortByCount(es), m);
  }

  lemma WordSymbols(w: string)
    requires IsWord(w)
    ensures '"' !in w && '\n' !in w
  {
    assert forall i :: 0 <= i < |w| ==> w[i] != '"' && w[i] != '\n';
  }

  /** Reordering a list of a map's entries keeps it one. */
  lemma ListsMapPermutation(es: seq<Entry>, ps: seq<Entry>, m: map<string, nat>)
    requires ListsMap(es, m) && multiset(ps) == multiset(es)
    ensures ListsMap(ps, m)
  {
    forall k | 0 <= k < |ps| ensures ps[k].word in m && ps[k].count == m[ps[k].word] {
      assert ps[k] in multiset(es);
    }
    forall w | w in m ensures exists k :: 0 <= k < |ps| && ps[k].word == w {
      var k :| 0 <= k < |es| && es[k].word == w;
      assert es[k] in multiset(ps);
    }
    DistinctOnce(es);
    forall j, k | 0 <= j < k < |ps| ensures ps[j].word != ps[k].word {
      if ps[j].word == ps[k].word {
        assert ps[j] == ps[k];
        TwiceCounted(ps, j, k);
        assert false;
      }
    }
  }

  /** Entries with distinct words occur once each. */
  lemma {:induction false} DistinctOnce(es: seq<Entry>)
    requires forall j, k :: 0 <= j < k < |es| ==> es[j].word != es[k].word
    ensures forall x :: multiset(es)[x] <= 1
  {
    if es != [] {
      var n := |es|;
      DistinctOnce(es[..n - 1]);
      assert es == es[..n - 1] + [es[n - 1]];
      assert es[n - 1] !in es[..n - 1];
    }
  }

  lemma TwiceCounted(s: seq<Entry>, j: nat, k: nat)
    requires j < k < |s| && s[j] == s[k]
    ensures multiset(s)[s[j]] >= 2
  {
    assert s == s[..k] + s[k..];
    assert s[j] in s[..k];
    assert s[k] in s[k..];
  }

  // ---------------------------------------------------------------------
  // JSON.stringify(articles, null, 2)

  /** `parts.join(sep)` for a separator of any length. */
  function JoinWith(parts: seq<string>, sep: string): string {
    if parts == [] then ""
    else if |parts| == 1 then parts[0]
    else parts[0] + sep + JoinWith(parts[1..], sep)
  }

  /** A non-empty object or array as `JSON.stringify` lays it out with an
      indentation: the opening bracket, each item on a new line at
      `indent`, items separated by commas, and the closing bracket on a
      new line at `stepback`. */
  function Block(open: string, items: seq<string>, indent: string, stepback: string, close: string): string {
    open + "\n" + indent + JoinWith(items, ",\n" + indent) + "\n" + stepback + close
  }

  /** The indentation of the records and of their members. */
  const Depth1 := "  "
  const Depth2 := "    "

  /** One member of a serialised object; an `undefined` property is
      omitted. The keys are plain identifiers, which quoting leaves as
      they are. */
  function Property(key: string, v: JsStr): seq<string> {
    if v == Undefined then [] else ["\"" + key + "\": " + JsonValue(v)]
  }

  /** The properties of a record in the order they were created: the
      four of `extractListViewData`, then those the detail phase
      assigns. */
  function Fields(a: Article): seq<(string, JsStr)> {
    [("title", Str(a.title)), ("content", Str(a.content)), ("listImageUrl", a.listImageUrl),
     ("articleUrl", a.articleUrl), ("detailImageUrl", a.detailImageUrl),
     ("listImagePath", a.listImagePath), ("detailImagePath", a.detailImagePath)]
  }

  function Members(fields: seq<(string, JsStr)>): seq<string> {
    if fields == [] then [] else Property(fields[0].0, fields[0].1) + Members(fields[1..])
  }

  /** The serialised members of a record; the title is always one. */
  function Properties(a: Article): (ps: seq<string>)
    ensures |ps| >= 1
  {
    var fields := Fields(a);
    assert Members(fields) == Property("title", Str(a.title)) + Members(fields[1..]);
    Members(fields)
  }

  /** A record as an element of the top-level array: members at depth
      two, the closing brace at depth one. */
  function ArticleJson(a: Article): string {
    Block("{", Properties(a), Depth2, Depth1, "}")
  }

  function ArticleJsons(articles: seq<Article>): (js: seq<string>)
    ensures |js| == |articles|
    ensures forall i :: 0 <= i < |articles| ==> js[i] == ArticleJson(articles[i])
  {
    if articles == [] then [] else [ArticleJson(articles[0])] + ArticleJsons(articles[1..])
  }

  /** `JSON.stringify(articles, null, 2)` */
  function ArticlesJson(articles: seq<Article>): string {
    if articles == [] then "[]" else Block("[", ArticleJsons(articles), Depth1, "", "]")
  }

  /** The lines of `JSON.stringify(articles, null, 2)`, written out: the
      brackets on lines of their own, then for each record an opening
      brace, one line per member at depth two, and a closing brace, every
      member and every record but the last followed by a comma. */
  function JsonLines(articles: seq<Article>): seq<string> {
    if articles == [] then ["[]"] else ["["] + ElementLines(articles) + ["]"]
  }

  function ElementLines(articles: seq<Article>): (lines: seq<string>)
    ensures articles != [] ==> |lines| >= 1
    decreases |articles|
  {
    if articles == [] then []
    else if |articles| == 1 then ObjectLines(articles[0], "")
    else ObjectLines(articles[0], ",") + ElementLines(articles[1..])
  }

  function ObjectLines(a: Article, comma: string): seq<string> {
    [Depth1 + "{"] + Indented(Depth2, Properties(a)) + [Depth1 + "}" + comma]
  }

  /** Each of `ps` after `indent`, all but the last followed by a comma. */
  function Indented(indent: string, ps: seq<string>): (lines: seq<string>)
    ensures |lines| == |ps|
    decreases |ps|
  {
    if ps == [] then []
    else if |ps| == 1 then [indent + ps[0]]
    else [indent + ps[0] + ","] + Indented(indent, ps[1..])
  }

  /** `line` holds no line break. */
  predicate SingleLine(line: string) {
    '\n' !in line
  }

  predicate AllSingleLines(lines: seq<string>) {
    forall k :: 0 <= k < |lines| ==> SingleLine(lines[k])
  }

  lemma {:induction false} JoinAppend(xs: seq<string>, ys: seq<string>, sep: char)
    requires |xs| >= 1 && |ys| >= 1
    ensures Join(xs + ys, sep) == Join(xs, sep) + [sep] + Join(ys, sep)
  {
    if |xs| > 1 {
      JoinAppend(xs[1..], ys, sep);
      assert (xs + ys)[1..] == xs[1..] + ys;
    } else {
      assert (xs + ys)[1..] == ys;
    }
  }

  /** A first line, some middle lines and a last line, joined. */
  lemma JoinAround(first: string, mid: seq<string>, last: string)
    requires |mid| >= 1
    ensures Join([first] + mid + [last], '\n') == first + "\n" + Join(mid, '\n') + "\n" + last
  {
    JoinAppend([first], mid, '\n');
    JoinAppend([first] + mid, [last], '\n');
  }

  lemma IndentStep(indent: string, p: string, rest: string)
    ensures indent + (p + (",\n" + indent) + rest) == (indent + p + ",") + "\n" + (indent + rest)
  {
  }

  /** The items of a block after its first line break are the lines of
      `Indented`. */
  lemma {:induction false} IndentJoin(indent: string, ps: seq<string>)
    requires |ps| >= 1
    ensures indent + JoinWith(ps, ",\n" + indent) == Join(Indented(indent, ps), '\n')
    decreases |ps|
  {
    if |ps| > 1 {
      IndentJoin(indent, ps[1..]);
      var rest := Indented(indent, ps[1..]);
      assert ([indent + ps[0] + ","] + rest)[1..] == rest;
      IndentStep(indent, ps[0], JoinWith(ps[1..], ",\n" + indent));
    }
  }

  lemma BlockJoin(open: string, items: seq<string>, indent: string, stepback: string, close: string)
    requires |items| >= 1
    ensures Block(open, items, indent, stepback, close)
            == Join([open] + Indented(indent, items) + [stepback + close], '\n')
  {
    var body := JoinWith(items, ",\n" + indent);
    IndentJoin(indent, items);
    JoinAround(open, Indented(indent, items), stepback + close);
    assert Block(open, items, indent, stepback, close) == open + "\n" + (indent + body) + "\n" + (stepback + close);
  }

  lemma WrapStep(pre: string, first: string, m: string, last: string, post: string)
    ensures pre + (first + "\n" + m + "\n" + last) + post == (pre + first) + "\n" + m + "\n" + (last + post)
  {
  }

  /** A block with text before its first line and after its last. */
  lemma WrapJoin(pre: string, open: string, items: seq<string>, indent: string, stepback: string, close: string, post: string)
    requires |items| >= 1
    ensures pre + Block(open, items, indent, stepback, close) + post
            == Join([pre + open] + Indented(indent, items) + [stepback + close + post], '\n')
  {
    var members := Indented(indent, items);
    BlockJoin(open, items, indent, stepback, close);
    JoinAround(open, members, stepback + close);
    JoinAround(pre + open, members, stepback + close + post);
    WrapStep(pre, open, Join(members, '\n'), stepback + close, post);
  }

  lemma ObjectJoin(a: Article, comma: string)
    ensures Depth1 + ArticleJson(a) + comma == Join(ObjectLines(a, comma), '\n')
  {
    WrapJoin(Depth1, "{", Properties(a), Depth2, Depth1, "}", comma);
  }

  /** The items of the top-level array are the lines of its records. */
  lemma {:induction false} ElementsJoin(articles: seq<Article>)
    requires |articles| >= 1
    ensures Join(Indented(Depth1, ArticleJsons(articles)), '\n') == Join(ElementLines(articles), '\n')
    decreases |articles|
  {
    var js := ArticleJsons(articles);
    if |articles| == 1 {
      ObjectJoin(articles[0], "");
      assert Depth1 + js[0] + "" == Depth1 + js[0];
    } else {
      ElementsJoin(articles[1..]);
      ObjectJoin(articles[0], ",");
      assert js[1..] == ArticleJsons(articles[1..]);
      var rest := Indented(Depth1, js[1..]);
      assert ([Depth1 + js[0] + ","] + rest)[1..] == rest;
      JoinAppend(ObjectLines(articles[0], ","), ElementLines(articles[1..]), '\n');
    }
  }

  /** The serialised records are the lines of `JsonLines` joined by line
      breaks. */
  lemma ArticlesJsonJoin(articles: seq<Article>)
    ensures ArticlesJson(articles) == Join(JsonLines(articles), '\n')
  {
    if articles != [] {
      var js := ArticleJsons(articles);
      BlockJoin("[", js, Depth1, "", "]");
      ElementsJoin(articles);
      assert "" + "]" == "]";
      JoinAround("[", Indented(Depth1, js), "]");
      JoinAround("[", ElementLines(articles), "]");
    }
  }

  lemma ValueSingle(v: JsStr)
    ensures SingleLine(JsonValue(v))
  {
    if v.Str? {
      JsonEscapeSingleLine(v.s);
    }
  }

  lemma PropertySingle(key: string, v: JsStr)
    requires SingleLine(key)
    ensures AllSingleLines(Property(key, v))
  {
    ValueSingle(v);
  }

  lemma SinglesAppend(xs: seq<string>, ys: seq<string>)
    requires AllSingleLines(xs) && AllSingleLines(ys)
    ensures AllSingleLines(xs + ys)
  {
    assert forall k :: |xs| <= k < |xs + ys| ==> (xs + ys)[k] == ys[k - |xs|];
  }

  lemma {:induction false} MembersSingle(fields: seq<(string, JsStr)>)
    requires forall k :: 0 <= k < |fields| ==> SingleLine(fields[k].0)
    ensures AllSingleLines(Members(fields))
  {
    if fields != [] {
      PropertySingle(fields[0].0, fields[0].1);
      MembersSingle(fields[1..]);
      SinglesAppend(Property(fields[0].0, fields[0].1), Members(fields[1..]));
    }
  }

  /** No member line holds a line break: the keys are identifiers, the
      values JSON strings or `null`, and a line feed inside a string is
      escaped. */
  lemma PropertiesSingle(a: Article)
    ensures AllSingleLines(Properties(a))
  {
    var fields := Fields(a);
    assert forall k :: 0 <= k < |fields| ==> SingleLine(fields[k].0);
    MembersSingle(fields);
  }

  lemma {:induction false} IndentedSingle(indent: string, ps: seq<string>)
    requires SingleLine(indent) && AllSingleLines(ps)
    ensures AllSingleLines(Indented(indent, ps))
    decreases |ps|
  {
    if |ps| > 1 {
      IndentedSingle(indent, ps[1..]);
    }
  }

  lemma ObjectLinesSingle(a: Article, comma: string)
    requires SingleLine(comma)
    ensures AllSingleLines(ObjectLines(a, comma))
  {
    PropertiesSingle(a);
    IndentedSingle(Depth2, Properties(a));
    SinglesAppend([Depth1 + "{"], Indented(Depth2, Properties(a)));
    SinglesAppend([Depth1 + "{"] + Indented(Depth2, Properties(a)), [Depth1 + "}" + comma]);
  }

  lemma {:induction false} ElementLinesSingle(articles: seq<Article>)
    ensures AllSingleLines(ElementLines(articles))
    decreases |articles|
  {
    if |articles| == 1 {
      ObjectLinesSingle(articles[0], "");
    } else if |articles| > 1 {
      ObjectLinesSingle(articles[0], ",");
      ElementLinesSingle(articles[1..]);
      SinglesAppend(ObjectLines(articles[0], ","), ElementLines(articles[1..]));
    }
  }

  /** `scraped_articles.json` read line by line: exactly `JsonLines`, so
      each defined property of each record sits on a line of its own, in
      creation order, and an unassigned one has no line. */
  lemma ArticlesJsonLayout(articles: seq<Article>)
    ensures Split(ArticlesJson(articles), '\n') == JsonLines(articles)
  {
    ArticlesJsonJoin(articles);
    ElementLinesSingle(articles);
    JoinSplit(JsonLines(articles), '\n');
  }

  // ---------------------------------------------------------------------
  // main

  /** What `translator.translateHeaders(headers)` resolves to: an array of
      values, or any other JSON value, given as its
      `JSON.stringify(value, null, 2)` text. */
  datatype Translation = ArrayReply(items: seq<JsStr>) | OtherReply(json: string)

  /** The translation service: a translation or the message it rejects
      with. */
  type Translator = seq<string> -> Result<Translation, string>

  const ArticlesFile := "scraped_articles.json"
  const OriginalFile := "headers_original.txt"
  const TranslatedFile := "headers_translated.txt"
  const AnalysisFile := "word_count_analysis.txt"
  const RawFile := "headers_translated_raw.json"

  /** The disk once the records and the original headers are saved. */
  function SavedRecords(files: map<string, Data>, articles: seq<Article>): map<string, Data> {
    files[ArticlesFile := Text(ArticlesJson(articles))][OriginalFile := Text(Join(Titles(articles), '\n'))]
  }

  /** `after` is `saved` once the translator's answer is handled: nothing
      more after a rejection, the raw answer when it is not an array, and
      for an array the translated headers and the report, for some order
      of the analysis entries. */
  ghost predicate TranslationSaved(saved: map<string, Data>, reply: Result<Translation, string>, after: map<string, Data>) {
    match reply
    case Err(_) => after == saved
    case Ok(OtherReply(json)) => after == saved[RawFile := Text(json)]
    case Ok(ArrayReply(items)) =>
      exists es :: ListsMap(es, RepeatedWords(Items(items)))
                   && after == saved[TranslatedFile := Text(JoinLines(items))][AnalysisFile := Text(Report(es))]
  }

  /** `after` is the disk `main` leaves after scraping `articles` onto
      `before`: the records and the original headers saved, then the
      translator's answer handled. */
  ghost predicate Published(before: map<string, Data>, articles: seq<Article>, translate: Translator, after: map<string, Data>) {
    TranslationSaved(SavedRecords(before, articles), translate(Titles(articles)), after)
  }

  /** The inner `try` block, for the translator's answer. */
  method SaveTranslation(reply: Result<Translation, string>, fs: FileSystem)
    modifies fs
    ensures TranslationSaved(old(fs.files), reply, fs.files)
    ensures fs.dirs == old(fs.dirs)
  {
    match reply
    case Err(_) =>
    case Ok(OtherReply(json)) =>
      fs.SaveToFile(RawFile, json);
    case Ok(ArrayReply(items)) =>
      fs.SaveToFile(TranslatedFile, JoinLines(items));
      var repeatedWords := AnalyzeRepeatedWords(Items(items));
      EntriesExist(repeatedWords);
      var es :| ListsMap(es, repeatedWords);
      fs.SaveToFile(AnalysisFile, Report(es));
  }

  /** Step 2 onwards of `main`'s `try` block, for the scraped records. */
  method Publish(articles: seq<Article>, fs: FileSystem, translate: Translator)
    modifies fs
    ensures Published(old(fs.files), articles, translate, fs.files)
    ensures fs.dirs == old(fs.dirs)
  {
    fs.SaveToFile(ArticlesFile, ArticlesJson(articles));
    var headers := Titles(articles);
    fs.SaveToFile(OriginalFile, Join(headers, '\n'));
    var translated := translate(headers);
    SaveTranslation(translated, fs);
  }

  /** Handling the answer writes only the three translation outputs. */
  lemma TranslationKeeps(saved: map<string, Data>, reply: Result<Translation, string>, after: map<string, Data>, p: string)
    requires TranslationSaved(saved, reply, after)
    requires p != RawFile && p != TranslatedFile && p != AnalysisFile
    ensures p in after <==> p in saved
    ensures p in saved ==> after[p] == saved[p]
  {
    match reply
    case Err(_) =>
    case Ok(OtherReply(json)) =>
    case Ok(ArrayReply(items)) =>
      var es :| ListsMap(es, RepeatedWords(Items(items)))
                && after == saved[TranslatedFile := Text(JoinLines(items))][AnalysisFile := Text(Report(es))];
  }

  /** The records and the original headers are written before the
      translator is called, so they are on disk whatever it answers,
      a rejection included. */
  lemma SavedBeforeTranslation(before: map<string, Data>, articles: seq<Article>, translate: Translator, after: map<string, Data>)
    requires Published(before, articles, translate, after)
    ensures ArticlesFile in after && after[ArticlesFile] == Text(ArticlesJson(articles))
    ensures OriginalFile in after && after[OriginalFile] == Text(Join(Titles(articles), '\n'))
  {
    var saved := SavedRecords(before, articles);
    var reply := translate(Titles(articles));
    assert |ArticlesFile| == 21 && |OriginalFile| == 20 && |TranslatedFile| == 22 && |AnalysisFile| == 23 && |RawFile| == 27;
    TranslationKeeps(saved, reply, after, ArticlesFile);
    TranslationKeeps(saved, reply, after, OriginalFile);
  }

  /** For an array answer, `headers_translated.txt` holds the joined
      translations and `word_count_analysis.txt` reads back as every word
      repeated across them, once each with its count, by non-increasing
      count; it is the fallback sentence exactly when no word repeats. */
  lemma AnalysisSaved(saved: map<string, Data>, items: seq<JsStr>, after: map<string, Data>)
    requires TranslationSaved(saved, Ok(ArrayReply(items)), after)
    ensures TranslatedFile in after && after[TranslatedFile] == Text(JoinLines(items))
    ensures AnalysisFile in after && after[AnalysisFile].Text?
    ensures after[AnalysisFile].text == NoRepeats <==> RepeatedWords(Items(items)) == map[]
    ensures var back := ParseReport(after[AnalysisFile].text);
            back.Some? && SortedByCount(back.value) && ListsMap(back.value, RepeatedWords(Items(items)))
  {
    var es :| ListsMap(es, RepeatedWords(Items(items)))
              && after == saved[TranslatedFile := Text(JoinLines(items))][AnalysisFile := Text(Report(es))];
    assert |TranslatedFile| != |AnalysisFile|;
    ReportOfAnalysis(Items(items), es);
  }

  /** The records `scrapeArticles` returns for a site with articles: the
      finished record of each of the first `min(found, ARTICLE_COUNT)`
      containers. */
  function ScrapedRecords(site: Site): (recs: seq<Article>)
    ensures |recs| == Min(|site.containers|, ArticleCount)
    ensures forall i :: 0 <= i < |recs| ==> recs[i] == Processed(site, site.containers[i], i)
  {
    RecordsBefore(site, Min(|site.containers|, ArticleCount))
  }

  function RecordsBefore(site: Site, n: nat): (recs: seq<Article>)
    requires n <= |site.containers|
    ensures |recs| == n
    ensures forall i :: 0 <= i < n ==> recs[i] == Processed(site, site.containers[i], i)
  {
    if n == 0 then [] else RecordsBefore(site, n - 1) + [Processed(site, site.containers[n - 1], n - 1)]
  }

  /** The scraper gets as far as returning records: the home page loads,
      the section is reached (by the link or the fallback URL), and it
      lists at least one article. */
  predicate Proceeds(site: Site) {
    && BaseUrl !in site.unreachable
    && (ClickOutcome(site).reached || FallbackUrl !in site.unreachable)
    && |site.containers| > 0
  }

  /** The directories once `initializeDriver` has run. */
  function ImageDirs(dirs: set<string>, files: map<string, Data>): set<string> {
    WithDirectory(WithDirectory(WithDirectory(dirs, files, ImageDir), files, ListDir), files, DetailDir)
  }

  /** `main()`: the scraper's steps in order, each failure ending the
      `try` block; the records and downloads when it gets through; the
      session closed in the `finally` block whatever happened. */
  method Run(site: Site, fs: FileSystem, net: Network, fuel: nat, translate: Translator) returns (scraper: ElPaisScraper)
    modifies fs
    ensures fresh(scraper) && scraper.site == site && !scraper.driverOpen
    ensures fs.dirs == ImageDirs(old(fs.dirs), old(fs.files))
    ensures !Proceeds(site) ==> fs.files == old(fs.files)
    ensures Proceeds(site) ==>
              Published(AfterDownloads(old(fs.files), ScrapedRecords(site), net, fuel), ScrapedRecords(site), translate, fs.files)
  {
    scraper := new ElPaisScraper(site);
    scraper.InitializeDriver(fs);
    var home := scraper.NavigateToHome();
    if home.Ok? {
      scraper.HandleCookies();
      var section := scraper.NavigateToOpinion();
      if section.Ok? {
        var scraped := scraper.ScrapeArticles(fs, net, fuel);
        if scraped.Ok? {
          assert scraped.value == ScrapedRecords(site);
          Publish(scraped.value, fs, translate);
        }
      }
    }
    scraper.Close();
  }
}
