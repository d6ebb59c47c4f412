/**
 * webpage_downloader.py: the two pure string operations of the downloader.
 * Fetching, saving, sleeping and argument parsing are left out.
 */
module WebpageDownloader {
  import opened Strings

  const HtmlExtension: string := ".html"

  /** `create_filename`: the part of the url after its last '/' (the whole url
      when there is none), followed by '.html'. */
  function CreateFilename(url: string): (name: string)
    ensures |name| >= |HtmlExtension| && name[|name| - |HtmlExtension|..] == HtmlExtension
    ensures var stem := name[..|name| - |HtmlExtension|];
      && '/' !in stem
      && |stem| <= |url| && stem == url[|url| - |stem|..]
      && (if |stem| == |url| then '/' !in url else url[|url| - |stem| - 1] == '/')
  {
    var pieces := Split(url, '/');
    SplitPieces(url, '/');
    SplitLastPiece(url, '/');
    var stem := pieces[|pieces| - 1];
    assert (stem + HtmlExtension)[..|stem|] == stem;
    stem + HtmlExtension
  }

  /** The non-empty strings of `pieces`, in order. */
  function NonEmpty(pieces: seq<string>): (r: seq<string>)
    ensures forall u :: u in r ==> u != [] && u in pieces
    ensures |r| <= |pieces|
  {
    if pieces == [] then []
    else (if pieces[0] == [] then [] else [pieces[0]]) + NonEmpty(pieces[1..])
  }

  /** The url list of `main`: `[url for url in data.split('\n') if url]`. */
  function UrlList(data: string): (urls: seq<string>)
    ensures forall u :: u in urls ==> u != [] && '\n' !in u
  {
    SplitPieces(data, '\n');
    NonEmpty(Split(data, '\n'))
  }

  /** One line is kept exactly when it is not empty. */
  lemma NonEmptyOfOne(u: string)
    ensures NonEmpty([u]) == if u == [] then [] else [u]
  {
    assert [u][1..] == [];
  }

  /** Lines are filtered independently of one another, and the kept ones
      stay in order. */
  lemma {:induction false} NonEmptyAppend(a: seq<string>, b: seq<string>)
    ensures NonEmpty(a + b) == NonEmpty(a) + NonEmpty(b)
  {
    if a != [] {
      assert (a + b)[0] == a[0] && (a + b)[1..] == a[1..] + b;
      NonEmptyAppend(a[1..], b);
    } else {
      assert a + b == b;
    }
  }

  /** A file without line breaks is one URL, unless it is empty. */
  lemma UrlListOfLine(line: string)
    requires '\n' !in line
    ensures UrlList(line) == if line == [] then [] else [line]
  {
    SplitPieces(line, '\n');
    NonEmptyOfOne(line);
  }

  /** Reading the file line by line: the first line is a URL exactly when it
      is not empty, and the URLs of the remaining lines follow it in order. */
  lemma UrlListOfLines(line: string, rest: string)
    requires '\n' !in line
    ensures UrlList(line + "\n" + rest) == (if line == [] then [] else [line]) + UrlList(rest)
  {
    SplitOfLine(line, rest);
    NonEmptyAppend([line], Split(rest, '\n'));
    NonEmptyOfOne(line);
  }

  lemma {:induction false} NonEmptyKeepsAll(pieces: seq<string>)
    requires forall i :: 0 <= i < |pieces| ==> pieces[i] != []
    ensures NonEmpty(pieces) == pieces
  {
    if pieces != [] {
      NonEmptyKeepsAll(pieces[1..]);
    }
  }

  /** A url file without blank lines is read back line for line: joining the
      list with '\n' gives the file again. */
  lemma UrlListRoundTrip(data: string)
    requires forall i :: 0 <= i < |Split(data, '\n')| ==> Split(data, '\n')[i] != []
    ensures UrlList(data) == Split(data, '\n')
    ensures Join(UrlList(data), '\n') == data
  {
    NonEmptyKeepsAll(Split(data, '\n'));
    SplitJoin(data, '\n');
  }

  /** Blank lines, wherever they are, never reach the downloader. */
  lemma BlankLinesDropped(a: string, b: string)
    requires '\n' !in a && '\n' !in b && a != [] && b != []
    ensures UrlList(a + "\n\n" + b + "\n") == [a, b]
  {
    var data := a + "\n\n" + b + "\n";
    SplitOfLine(a, "\n" + b + "\n");
    SplitOfLine([], b + "\n");
    SplitOfLine(b, []);
    assert data == a + "\n" + ("\n" + b + "\n");
    assert "\n" + b + "\n" == [] + "\n" + (b + "\n");
    assert b + "\n" == b + "\n" + [];
    assert Split(data, '\n') == [a, [], b, []];
    var pieces: seq<string> := [a, [], b, []];
    assert NonEmpty(pieces[3..]) == [];
    assert NonEmpty(pieces[2..]) == [b] + NonEmpty(pieces[3..]);
    assert NonEmpty(pieces[1..]) == NonEmpty(pieces[2..]);
  }

  /** Splitting a line followed by '\n' and a rest. */
  lemma {:induction false} SplitOfLine(line: string, rest: string)
    requires '\n' !in line
    ensures Split(line + "\n" + rest, '\n') == [line] + Split(rest, '\n')
  {
    if line == [] {
      assert line + "\n" + rest == "\n" + rest;
      assert ("\n" + rest)[1..] == rest;
    } else {
      var s := line + "\n" + rest;
      assert s[0] == line[0] && s[1..] == line[1..] + "\n" + rest;
      SplitOfLine(line[1..], rest);
      assert [line[0]] + line[1..] == line;
    }
  }
}
