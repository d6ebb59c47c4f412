/**
 * text_splitter.py: chunking through an external recursive splitter, followed
 * by an in-place pass that moves a chunk's leading '.' back onto the chunk
 * before it.
 */
module TextSplitter {
  import opened Wrappers

  /** LangChain's `RecursiveCharacterTextSplitter(chunk_size, chunk_overlap,
      separators).split_text(text)`, a foreign library: arguments are the
      text, the chunk size, the overlap and the separator list. */
  type Splitter = (string, nat, nat, seq<string>) -> seq<string>

  const DefaultChunkSize: nat := 500
  const ChunkOverlap: nat := 0
  const DefaultSeparators: seq<string> := ["\n\n", "\n", ". ", " ", ".", ""]

  /** `t.startswith('.')` */
  predicate StartsWithDot(t: string) {
    |t| >= 1 && t[0] == '.'
  }

  /** `t.startswith('. ')` */
  predicate StartsWithDotSpace(t: string) {
    |t| >= 2 && t[0] == '.' && t[1] == ' '
  }

  /** One iteration of the pass at `index`, where `t` is the element read
      from the snapshot `texts[1:]` taken before the loop. */
  function Step(texts: seq<string>, index: nat, t: string): (r: seq<string>)
    requires 1 <= index < |texts|
    ensures |r| == |texts|
  {
    if StartsWithDotSpace(t) then texts[index - 1 := texts[index - 1] + "."][index := t[2..]]
    else if StartsWithDot(t) then texts[index - 1 := texts[index - 1] + "."][index := t[1..]]
    else texts
  }

  /** The iterations from `index` to the end, reading from `snapshot`. */
  function PassFrom(texts: seq<string>, snapshot: seq<string>, index: nat): (r: seq<string>)
    requires 1 <= index && |texts| == |snapshot|
    ensures |r| == |texts|
    decreases |texts| - index
  {
    if index >= |texts| then texts
    else PassFrom(Step(texts, index, snapshot[index]), snapshot, index + 1)
  }

  /** The list after the whole left-to-right repair pass. */
  function Repaired(texts: seq<string>): (r: seq<string>)
    ensures |r| == |texts|
  {
    PassFrom(texts, texts, 1)
  }

  /** A list of at most one chunk has nothing to repair. */
  lemma RepairedShort(texts: seq<string>)
    requires |texts| <= 1
    ensures Repaired(texts) == texts
  {
  }

  /** `t` without its leading '. ' or '.'. */
  function WithoutLeadingDot(t: string): string {
    if StartsWithDotSpace(t) then t[2..] else if StartsWithDot(t) then t[1..] else t
  }

  /** What remains of element `i` of `o` itself: element 0 is never cut. */
  function Kept(o: seq<string>, i: nat): string
    requires i < |o|
  {
    if i == 0 then o[0] else WithoutLeadingDot(o[i])
  }

  /** The dot element `i` receives from its successor. */
  function DotFromNext(o: seq<string>, i: nat): string
    requires i < |o|
  {
    if i + 1 < |o| && StartsWithDot(o[i + 1]) then "." else ""
  }

  /** The state of the list before iteration `index`: elements before
      `index - 1` are final, element `index - 1` has lost its dot but not yet
      received one, and the rest are untouched. */
  ghost predicate DoneBefore(texts: seq<string>, o: seq<string>, index: nat)
    requires 1 <= index
  {
    && |texts| == |o|
    && (forall k :: 0 <= k < index - 1 && k < |o| ==> texts[k] == Kept(o, k) + DotFromNext(o, k))
    && (index - 1 < |o| ==> texts[index - 1] == Kept(o, index - 1))
    && (forall k :: index <= k < |o| ==> texts[k] == o[k])
  }

  lemma {:induction false} PassFromAt(texts: seq<string>, o: seq<string>, index: nat)
    requires 1 <= index && DoneBefore(texts, o, index)
    ensures forall k :: 0 <= k < |o| ==> PassFrom(texts, o, index)[k] == Kept(o, k) + DotFromNext(o, k)
    decreases |texts| - index
  {
    if index < |texts| {
      var next := Step(texts, index, o[index]);
      assert DoneBefore(next, o, index + 1);
      PassFromAt(next, o, index + 1);
    } else if |o| > 0 {
      assert DotFromNext(o, |o| - 1) == "";
    }
  }

  /** After the pass, element `i` is its original text without a leading
      '. ' or '.' (element 0 keeps all of its text), followed by one '.' when
      the original element `i + 1` started with '.'. */
  lemma RepairedAt(o: seq<string>, i: nat)
    requires i < |o|
    ensures Repaired(o)[i] == Kept(o, i) + DotFromNext(o, i)
  {
    PassFromAt(o, o, 1);
  }

  /** Sum of the lengths of the texts. */
  function TotalLength(texts: seq<string>): nat {
    if texts == [] then 0 else TotalLength(texts[..|texts| - 1]) + |texts[|texts| - 1]|
  }

  /** Number of elements at positions 1 to `j - 1` that start with '. '. */
  function DotSpaceCount(o: seq<string>, j: nat): nat
    requires j <= |o|
  {
    if j <= 1 then 0 else DotSpaceCount(o, j - 1) + (if StartsWithDotSpace(o[j - 1]) then 1 else 0)
  }

  lemma {:induction false} RepairedPrefixLength(o: seq<string>, j: nat)
    requires j <= |o|
    ensures TotalLength(Repaired(o)[..j]) + DotSpaceCount(o, j)
         == TotalLength(o[..j]) + (if 1 <= j < |o| && StartsWithDot(o[j]) then 1 else 0)
  {
    var r := Repaired(o);
    if j > 0 {
      RepairedPrefixLength(o, j - 1);
      RepairedAt(o, j - 1);
      assert r[..j][..j - 1] == r[..j - 1];
      assert o[..j][..j - 1] == o[..j - 1];
    }
  }

  /** The pass only relocates dots, except that every element after the
      first that started with '. ' loses its space. */
  lemma RepairedTotalLength(o: seq<string>)
    ensures TotalLength(Repaired(o)) + DotSpaceCount(o, |o|) == TotalLength(o)
  {
    RepairedPrefixLength(o, |o|);
    assert Repaired(o)[..|o|] == Repaired(o);
    assert o[..|o|] == o;
  }

  /** The two examples of the pass's documentation. */
  lemma RepairDocExamples()
    ensures Repaired(["Sentence 1", ". Sentence 2."]) == ["Sentence 1.", "Sentence 2."]
    ensures Repaired(["Sentence 1", ".Sentence 2."]) == ["Sentence 1.", "Sentence 2."]
  {
    TwoElements(["Sentence 1", ". Sentence 2."], "Sentence 1.", "Sentence 2.");
    TwoElements(["Sentence 1", ".Sentence 2."], "Sentence 1.", "Sentence 2.");
  }

  lemma TwoElements(o: seq<string>, first: string, second: string)
    requires |o| == 2
    requires o[0] + DotFromNext(o, 0) == first && WithoutLeadingDot(o[1]) == second
    ensures Repaired(o) == [first, second]
  {
    var r := Repaired(o);
    RepairedAt(o, 0);
    RepairedAt(o, 1);
    assert r[0] == first && r[1] == second;
  }

  /** The pass is not idempotent: an element starting with '..' loses only
      one dot, and a second pass moves the other one. */
  lemma RepairNotIdempotent()
    ensures Repaired(["a", "..b"]) == ["a.", ".b"]
    ensures Repaired(Repaired(["a", "..b"])) == ["a..", "b"]
  {
    TwoElements(["a", "..b"], "a.", ".b");
    TwoElements(["a.", ".b"], "a..", "b");
  }

  /** `__fix_splits_on_dot`: the in-place pass over the list. */
  method FixSplitsOnDot(texts: array<string>)
    modifies texts
    ensures texts[..] == Repaired(old(texts[..]))
  {
    ghost var snapshot := texts[..];
    var index := 1;
    while index < texts.Length
      invariant 1 <= index
      invariant |texts[..]| == |snapshot|
      invariant forall k :: index <= k < texts.Length ==> texts[k] == snapshot[k]
      invariant PassFrom(texts[..], snapshot, index) == Repaired(snapshot)
    {
      var t := texts[index];
      if StartsWithDotSpace(t) {
        texts[index - 1] := texts[index - 1] + ".";
        texts[index] := t[2..];
      } else if StartsWithDot(t) {
        texts[index - 1] := texts[index - 1] + ".";
        texts[index] := t[1..];
      }
      index := index + 1;
    }
  }

  /** `separators or [...]`: the default list replaces both `None` and an
      empty list. */
  function EffectiveSeparators(separators: Option<seq<string>>): (r: seq<string>)
    ensures r != []
    ensures separators.None? || separators.value == [] ==> r == DefaultSeparators
    ensures separators.Some? && separators.value != [] ==> r == separators.value
  {
    if separators.Some? && separators.value != [] then separators.value else DefaultSeparators
  }

  /** What `to_chunks` returns: the splitter's pieces, repaired. */
  function Chunks(splitter: Splitter, text: string, chunkSize: nat, separators: Option<seq<string>>): seq<string>
  {
    Repaired(splitter(text, chunkSize, ChunkOverlap, EffectiveSeparators(separators)))
  }

  /** `to_chunks`: one chunk per piece of the splitter, each repaired. */
  method ToChunks(splitter: Splitter, text: string, chunkSize: nat, separators: Option<seq<string>>)
    returns (chunks: seq<string>)
    ensures var pieces := splitter(text, chunkSize, ChunkOverlap, EffectiveSeparators(separators));
      |chunks| == |pieces| && chunks == Repaired(pieces)
    ensures chunks == Chunks(splitter, text, chunkSize, separators)
  {
    var seps := EffectiveSeparators(separators);
    var pieces := splitter(text, chunkSize, ChunkOverlap, seps);
    var texts := new string[|pieces|](i requires 0 <= i < |pieces| => pieces[i]);
    assert texts[..] == pieces;
    FixSplitsOnDot(texts);
    chunks := texts[..];
  }
}
