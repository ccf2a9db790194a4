/**
 * The data-handling part of the Mendeley export
 * (scripts/extract/mendeley_manual.py): `extract_metadata`, which projects
 * each document of the API's JSON answer onto seven fields, and the
 * extraction of the OAuth code from the pasted redirect URL.
 */
module Mendeley {
  import opened Wrappers
  import opened Builtins

  /** A JSON value as `json()` decodes it; numbers are kept as integers. */
  datatype Value =
    | Null
    | Bool(b: bool)
    | Num(n: int)
    | Str(s: string)
    | List(items: seq<Value>)
    | Object(fields: map<string, Value>)

  /** Python's exception for `.get` on something that is not a dictionary. */
  const AttributeError: string := "AttributeError"
  /** Python's exception for iterating over something that is not iterable. */
  const TypeError: string := "TypeError"

  /** `d.get(key)`: the value, or `None` when the key is absent. */
  function Get(fields: map<string, Value>, key: string): Value {
    if key in fields then fields[key] else Null
  }

  /** One entry of the metadata list. */
  datatype Entry = Entry(
    title: Value,
    authors: seq<Value>,
    year: Value,
    docType: Value,
    source: Value,
    keywords: Value,
    abstractText: Value)

  /** `[a.get("last_name") for a in items]`: each item must be a dictionary. */
  function LastNames(items: seq<Value>): (r: Result<seq<Value>, string>)
    ensures r.Success? <==> forall k :: 0 <= k < |items| ==> items[k].Object?
    ensures r.Failure? ==> r.error == AttributeError
    ensures r.Success? ==> |r.value| == |items|
    ensures r.Success? ==> forall k :: 0 <= k < |items| ==> r.value[k] == Get(items[k].fields, "last_name")
  {
    if items == [] then Success([])
    else
      var last := items[|items| - 1];
      match LastNames(items[..|items| - 1])
      case Failure(e) => Failure(e)
      case Success(names) =>
        if last.Object? then Success(names + [Get(last.fields, "last_name")]) else Failure(AttributeError)
  }

  /**
   * `[a.get("last_name") for a in doc.get("authors", [])]`: iterating a
   * string or a dictionary yields strings, which have no `.get`, so only an
   * empty one gets through; `None`, a number or a boolean is not iterable.
   */
  function Authors(fields: map<string, Value>): Result<seq<Value>, string> {
    if "authors" !in fields then Success([])
    else
      match fields["authors"]
      case List(items) => LastNames(items)
      case Str(s) => if s == [] then Success([]) else Failure(AttributeError)
      case Object(f) => if f == map[] then Success([]) else Failure(AttributeError)
      case _ => Failure(TypeError)
  }

  /** The entry built for one document. */
  function EntryOf(doc: Value): Result<Entry, string> {
    if !doc.Object? then Failure(AttributeError)
    else
      var f := doc.fields;
      match Authors(f)
      case Failure(e) => Failure(e)
      case Success(authors) =>
        Success(Entry(Get(f, "title"), authors, Get(f, "year"), Get(f, "type"),
                      Get(f, "source"), Get(f, "keywords"), Get(f, "abstract")))
  }

  /** Document `k` is the first whose entry cannot be built. */
  predicate FirstFailure(docs: seq<Value>, k: int) {
    && 0 <= k < |docs| && EntryOf(docs[k]).Failure?
    && forall j :: 0 <= j < k ==> EntryOf(docs[j]).Success?
  }

  /**
   * `extract_metadata`: one entry per document, in order; the first document
   * that cannot be projected stops the loop with its exception.
   */
  method ExtractMetadata(docs: seq<Value>) returns (r: Result<seq<Entry>, string>)
    ensures r.Success? <==> forall k :: 0 <= k < |docs| ==> EntryOf(docs[k]).Success?
    ensures r.Success? ==> |r.value| == |docs|
    ensures r.Success? ==> forall k :: 0 <= k < |docs| ==> r.value[k] == EntryOf(docs[k]).value
    ensures r.Failure? ==> exists k :: FirstFailure(docs, k) && r.error == EntryOf(docs[k]).error
  {
    var metadata: seq<Entry> := [];
    var i := 0;
    while i < |docs|
      invariant 0 <= i <= |docs|
      invariant |metadata| == i
      invariant forall k :: 0 <= k < i ==> EntryOf(docs[k]).Success? && metadata[k] == EntryOf(docs[k]).value
    {
      var entry := EntryOf(docs[i]);
      if entry.Failure? {
        assert FirstFailure(docs, i);
        return Failure(entry.error);
      }
      metadata := metadata + [entry.value];
      i := i + 1;
    }
    return Success(metadata);
  }

  /** A document without an `authors` key gets an empty author list. */
  lemma NoAuthorsKey(fields: map<string, Value>)
    requires "authors" !in fields
    ensures EntryOf(Object(fields)) == Success(Entry(Get(fields, "title"), [], Get(fields, "year"),
      Get(fields, "type"), Get(fields, "source"), Get(fields, "keywords"), Get(fields, "abstract")))
  {
  }

  /**
   * With a list of author dictionaries, the authors are their last names in
   * order, `None` for an author without one; an absent field is `None`.
   */
  lemma AuthorsInOrder(fields: map<string, Value>, items: seq<Value>)
    requires "authors" in fields && fields["authors"] == List(items)
    requires forall k :: 0 <= k < |items| ==> items[k].Object?
    ensures EntryOf(Object(fields)).Success?
    ensures |EntryOf(Object(fields)).value.authors| == |items|
    ensures forall k :: 0 <= k < |items| ==>
      EntryOf(Object(fields)).value.authors[k] == Get(items[k].fields, "last_name")
    ensures forall k :: 0 <= k < |items| && "last_name" !in items[k].fields ==>
      EntryOf(Object(fields)).value.authors[k] == Null
    ensures "title" !in fields ==> EntryOf(Object(fields)).value.title == Null
  {
  }

  // ---------------------------------------------------------------------------
  // The OAuth code in the redirect URL.

  const CodeKey: string := "code="

  /**
   * `text.split(pat)[-1]`: the text after the last occurrence of `pat`, or
   * all of it when there is none.
   */
  function AfterLast(text: string, pat: string): string
    requires |pat| > 0
  {
    LastPiece(text, pat, 0, 0)
  }

  /**
   * The scan `split` makes from the left: the current piece starts at
   * `start`, position `i` is next; an occurrence ends the piece and the scan
   * resumes after it.
   */
  function LastPiece(text: string, pat: string, start: nat, i: nat): string
    requires |pat| > 0 && start <= i <= |text|
    decreases |text| - i
  {
    if OccursAt(text, pat, i) then LastPiece(text, pat, i + |pat|, i + |pat|)
    else if i == |text| then text[start..]
    else LastPiece(text, pat, start, i + 1)
  }

  /**
   * The piece is a suffix of the text that holds no occurrence of `pat`, and
   * it is either the whole text or right after an occurrence.
   */
  lemma AfterLastSpec(text: string, pat: string)
    requires |pat| > 0
    ensures var r := AfterLast(text, pat);
      && |r| <= |text| && text[|text| - |r|..] == r
      && (forall j: nat :: !OccursAt(r, pat, j))
      && (r == text || (|r| + |pat| <= |text| && OccursAt(text, pat, |text| - |r| - |pat|)))
  {
    LastPieceSuffix(text, pat, 0, 0);
    LastPieceFree(text, pat, 0, 0);
    LastPiecePreceded(text, pat, 0, 0);
  }

  lemma {:induction false} LastPieceSuffix(text: string, pat: string, start: nat, i: nat)
    requires |pat| > 0 && start <= i <= |text|
    ensures var r := LastPiece(text, pat, start, i);
      |r| <= |text| - start && text[|text| - |r|..] == r
    decreases |text| - i
  {
    if OccursAt(text, pat, i) {
      LastPieceSuffix(text, pat, i + |pat|, i + |pat|);
    } else if i < |text| {
      LastPieceSuffix(text, pat, start, i + 1);
    }
  }

  lemma {:induction false} LastPieceFree(text: string, pat: string, start: nat, i: nat)
    requires |pat| > 0 && start <= i <= |text|
    requires forall j :: start <= j < i ==> !OccursAt(text, pat, j)
    ensures forall j: nat :: !OccursAt(LastPiece(text, pat, start, i), pat, j)
    decreases |text| - i
  {
    if OccursAt(text, pat, i) {
      LastPieceFree(text, pat, i + |pat|, i + |pat|);
    } else if i < |text| {
      LastPieceFree(text, pat, start, i + 1);
    } else {
      var r := text[start..];
      forall j: nat ensures !OccursAt(r, pat, j) {
        if OccursAt(r, pat, j) {
          OccursShift(text, start, pat, j);
        }
      }
    }
  }

  lemma {:induction false} LastPiecePreceded(text: string, pat: string, start: nat, i: nat)
    requires |pat| > 0 && start <= i <= |text|
    requires start == 0 || (start >= |pat| && OccursAt(text, pat, start - |pat|))
    ensures var r := LastPiece(text, pat, start, i);
      r == text || (|r| + |pat| <= |text| && OccursAt(text, pat, |text| - |r| - |pat|))
    decreases |text| - i
  {
    if OccursAt(text, pat, i) {
      LastPiecePreceded(text, pat, i + |pat|, i + |pat|);
    } else if i < |text| {
      LastPiecePreceded(text, pat, start, i + 1);
    } else if start == 0 {
      assert text[start..] == text;
    }
  }

  /** An occurrence at or after position `i` ends the current piece: the last piece starts after it. */
  lemma {:induction false} LastPieceMoves(text: string, pat: string, start: nat, i: nat, q: nat)
    requires |pat| > 0 && start <= i <= q && OccursAt(text, pat, q)
    ensures |LastPiece(text, pat, start, i)| + i + |pat| <= |text|
    decreases |text| - i
  {
    if OccursAt(text, pat, i) {
      LastPieceSuffix(text, pat, i + |pat|, i + |pat|);
    } else {
      LastPieceMoves(text, pat, start, i + 1, q);
    }
  }

  /** An occurrence in `text[k..]` is an occurrence in `text`, `k` further on. */
  lemma OccursShift(text: string, k: nat, pat: string, j: nat)
    requires k <= |text| && OccursAt(text[k..], pat, j)
    ensures OccursAt(text, pat, k + j)
  {
    assert text[k + j..k + j + |pat|] == text[k..][j..j + |pat|];
  }

  /** `s.split(c)[0]`: the text before the first `c`, or all of it. */
  function UpToFirst(s: string, c: char): (r: string)
    ensures r <= s && c !in r
    ensures r == s || s[|r|] == c
  {
    if s == [] || s[0] == c then []
    else [s[0]] + UpToFirst(s[1..], c)
  }

  /** `redirect_url.split("code=")[-1].split("&")[0]`. */
  function ExtractCode(url: string): string {
    UpToFirst(AfterLast(url, CodeKey), '&')
  }

  /**
   * The code never contains "&"; it is a piece of the URL that starts right
   * after the last "code=", or at the start when there is none.
   */
  lemma ExtractCodeShape(url: string)
    ensures '&' !in ExtractCode(url)
    ensures var tail := AfterLast(url, CodeKey);
      && ExtractCode(url) <= tail
      && |tail| <= |url| && url[|url| - |tail|..] == tail
      && (tail == url || (|tail| + |CodeKey| <= |url| && OccursAt(url, CodeKey, |url| - |tail| - |CodeKey|)))
  {
    SplitShape(url, CodeKey);
  }

  lemma SplitShape(url: string, pat: string)
    requires |pat| > 0
    ensures '&' !in UpToFirst(AfterLast(url, pat), '&')
    ensures var tail := AfterLast(url, pat);
      && UpToFirst(tail, '&') <= tail
      && |tail| <= |url| && url[|url| - |tail|..] == tail
      && (tail == url || (|tail| + |pat| <= |url| && OccursAt(url, pat, |url| - |tail| - |pat|)))
  {
    AfterLastSpec(url, pat);
  }

  /** No proper suffix of `pat` starts with `pat`'s first character, as for "code=". */
  predicate FirstCharUnique(pat: string) {
    |pat| > 0 && forall d :: 0 < d < |pat| ==> pat[d] != pat[0]
  }

  lemma CodeKeyFirstCharUnique()
    ensures FirstCharUnique(CodeKey)
  {
  }

  /** Two occurrences of such a pattern never overlap. */
  lemma NoOverlap(text: string, pat: string, p: nat, q: nat)
    requires FirstCharUnique(pat)
    requires OccursAt(text, pat, p) && OccursAt(text, pat, q) && p < q
    ensures p + |pat| <= q
  {
    assert text[q] == pat[0] by {
      assert text[q..q + |pat|][0] == text[q];
    }
  }

  /** An occurrence inside a suffix of `text` is an occurrence in the suffix. */
  lemma InSuffix(text: string, r: string, pat: string, q: nat)
    requires |r| <= |text| && text[|text| - |r|..] == r
    requires |text| - |r| <= q && OccursAt(text, pat, q)
    ensures OccursAt(r, pat, q - (|text| - |r|))
  {
    var off := |text| - |r|;
    assert r[q - off..q - off + |pat|] == text[q..q + |pat|];
  }

  /** An occurrence that precedes a suffix free of the pattern is the last one. */
  lemma LastOccurrence(text: string, pat: string, r: string, p: nat, q: nat)
    requires FirstCharUnique(pat)
    requires OccursAt(text, pat, p) && OccursAt(text, pat, q)
    requires |r| <= |text| && text[|text| - |r|..] == r && |text| - |r| == p + |pat|
    requires forall j: nat :: !OccursAt(r, pat, j)
    ensures q <= p
  {
    if p < q {
      NoOverlap(text, pat, p, q);
      InSuffix(text, r, pat, q);
    }
  }

  /**
   * The piece after the last occurrence is the only suffix that follows an
   * occurrence and holds none itself.
   */
  lemma AfterLastUnique(text: string, pat: string, tail: string)
    requires FirstCharUnique(pat)
    requires |tail| + |pat| <= |text| && text[|text| - |tail|..] == tail
    requires OccursAt(text, pat, |text| - |tail| - |pat|)
    requires forall j: nat :: !OccursAt(tail, pat, j)
    ensures AfterLast(text, pat) == tail
  {
    var r := AfterLast(text, pat);
    var q := |text| - |tail| - |pat|;
    AfterLastSpec(text, pat);
    AfterLastShorter(text, pat, q);
    var p := |text| - |r| - |pat|;
    LastOccurrence(text, pat, r, p, q);
    LastOccurrence(text, pat, tail, q, p);
    assert |r| == |tail|;
  }

  /** When the pattern occurs, the piece after the last occurrence is shorter than the text. */
  lemma AfterLastShorter(text: string, pat: string, q: nat)
    requires |pat| > 0 && OccursAt(text, pat, q)
    ensures |AfterLast(text, pat)| + |pat| <= |text|
    ensures OccursAt(text, pat, |text| - |AfterLast(text, pat)| - |pat|)
  {
    LastPieceMoves(text, pat, 0, 0, q);
    AfterLastSpec(text, pat);
  }

  /**
   * A redirect URL that carries `code` after its last "code=", up to an "&"
   * or the end, gives `code` back.
   */
  lemma ExtractCodeRoundTrip(prefix: string, code: string, rest: string)
    requires '&' !in code
    requires rest == [] || rest[0] == '&'
    requires forall j: nat :: !OccursAt(code + rest, CodeKey, j)
    ensures ExtractCode(prefix + CodeKey + code + rest) == code
  {
    CodeKeyFirstCharUnique();
    SplitRoundTrip(prefix, CodeKey, code, rest);
  }

  lemma SplitRoundTrip(prefix: string, pat: string, code: string, rest: string)
    requires FirstCharUnique(pat)
    requires '&' !in code
    requires rest == [] || rest[0] == '&'
    requires forall j: nat :: !OccursAt(code + rest, pat, j)
    ensures UpToFirst(AfterLast(prefix + pat + code + rest, pat), '&') == code
  {
    var url := prefix + pat + code + rest;
    var tail := code + rest;
    assert url[|url| - |tail|..] == tail;
    assert url[|prefix|..|prefix| + |pat|] == pat;
    AfterLastUnique(url, pat, tail);
    UpToFirstStops(code, rest);
  }

  lemma {:induction false} UpToFirstStops(code: string, rest: string)
    requires '&' !in code
    requires rest == [] || rest[0] == '&'
    ensures UpToFirst(code + rest, '&') == code
  {
    if code != [] {
      assert (code + rest)[1..] == code[1..] + rest;
      UpToFirstStops(code[1..], rest);
    }
  }
}
