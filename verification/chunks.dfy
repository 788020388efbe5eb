/**
 * `split_into_chunks`: cut a message into pieces of at most `limit`
 * characters, preferring to cut just after a paragraph break, then after a
 * line break, then after a space.
 */
module Chunking {
  import opened Wrappers
  import opened PyText

  /** Telegram's limit on the length of one message. */
  const MaxMessageLength: nat := 4096

  /** The cut points, most preferred first. */
  const Separators: seq<string> := ["\n\n", "\n", " "]

  function Concat(cs: seq<string>): string {
    if cs == [] then [] else cs[0] + Concat(cs[1..])
  }

  /** The separator search: the index just past the last occurrence, at a
      position greater than 0, of the first separator that has one; -1 when
      none does. */
  function SeparatorCut(window: string, seps: seq<string>): (k: int)
    ensures k == -1 || 0 < k <= |window|
  {
    if seps == [] then -1
    else
      var pos := RFind(window, seps[0]);
      if pos > 0 then pos + |seps[0]| else SeparatorCut(window, seps[1..])
  }

  /** Where a chunk taken from `window` (the first `limit` characters) ends. */
  function SplitIndex(window: string): (k: nat)
    requires |window| > 0
    ensures 0 < k <= |window|
  {
    var k := SeparatorCut(window, Separators);
    if k <= 0 then |window| else k
  }

  /** `sep` occurs in `window` at some position greater than 0. */
  ghost predicate HasInner(window: string, sep: string) {
    exists q :: 0 < q && OccursAt(window, sep, q)
  }

  /** `k` is just past the last occurrence of `sep` in `window`, and that occurrence is not at position 0. */
  ghost predicate CutsAfterLast(window: string, sep: string, k: int) {
    && 0 < k - |sep|
    && OccursAt(window, sep, k - |sep|)
    && forall q :: k - |sep| < q ==> !OccursAt(window, sep, q)
  }

  lemma HasInnerRFind(window: string, sep: string)
    ensures HasInner(window, sep) <==> RFind(window, sep) > 0
  {
    var pos := RFind(window, sep);
    if HasInner(window, sep) {
      var q :| 0 < q && OccursAt(window, sep, q);
      assert q <= |window| - |sep|;
    }
  }

  /** The separator preference: cut after the last inner paragraph break; failing that after the last inner line
      break; failing that after the last inner space; failing all three, after exactly `limit` characters. */
  lemma SplitIndexPrefers(window: string)
    requires |window| > 0
    ensures var k := SplitIndex(window);
      && (HasInner(window, "\n\n") ==> CutsAfterLast(window, "\n\n", k))
      && (!HasInner(window, "\n\n") && HasInner(window, "\n") ==> CutsAfterLast(window, "\n", k))
      && (!HasInner(window, "\n\n") && !HasInner(window, "\n") && HasInner(window, " ") ==> CutsAfterLast(window, " ", k))
      && (!HasInner(window, "\n\n") && !HasInner(window, "\n") && !HasInner(window, " ") ==> k == |window|)
  {
    var spaceOnly: seq<string> := [" "];
    var lineOrSpace: seq<string> := ["\n", " "];
    assert spaceOnly[1..] == [];
    assert lineOrSpace[1..] == spaceOnly;
    assert Separators[1..] == lineOrSpace;
    var k := SplitIndex(window);
    HasInnerRFind(window, "\n\n");
    HasInnerRFind(window, "\n");
    HasInnerRFind(window, " ");
    var p2, p1, p0 := RFind(window, "\n\n"), RFind(window, "\n"), RFind(window, " ");
    assert Separators[0] == "\n\n" && lineOrSpace[0] == "\n" && spaceOnly[0] == " ";
    if p2 > 0 {
      assert k == p2 + 2;
    } else {
      assert SeparatorCut(window, Separators) == SeparatorCut(window, lineOrSpace);
      if p1 > 0 {
        assert k == p1 + 1;
      } else {
        assert SeparatorCut(window, lineOrSpace) == SeparatorCut(window, spaceOnly);
        if p0 > 0 {
          assert k == p0 + 1;
        } else {
          assert SeparatorCut(window, spaceOnly) == SeparatorCut(window, []) == -1;
        }
      }
    }
  }

  /** The chunks `split_into_chunks` returns for a positive `limit`. */
  function Chunks(text: string, limit: nat): seq<string>
    requires limit > 0
    decreases |text|
  {
    if text == [] then []
    else if |text| <= limit then [text]
    else
      var k := SplitIndex(text[..limit]);
      [text[..k]] + Chunks(text[k..], limit)
  }

  /** The chunks put back together are the text. */
  lemma {:induction false} ChunksConcat(text: string, limit: nat)
    requires limit > 0
    ensures Concat(Chunks(text, limit)) == text
    decreases |text|
  {
    if |text| > limit {
      var k := SplitIndex(text[..limit]);
      var rest := Chunks(text[k..], limit);
      ChunksConcat(text[k..], limit);
      ConcatCons(text[..k], rest);
      assert text[..k] + text[k..] == text;
    }
  }

  lemma ConcatCons(c: string, cs: seq<string>)
    ensures Concat([c] + cs) == c + Concat(cs)
  {
    assert ([c] + cs)[1..] == cs;
  }

  /** Every chunk is non-empty and at most `limit` long. */
  lemma {:induction false} ChunksBounded(text: string, limit: nat)
    requires limit > 0
    ensures forall i :: 0 <= i < |Chunks(text, limit)| ==> 0 < |Chunks(text, limit)[i]| <= limit
    decreases |text|
  {
    if |text| > limit {
      var k := SplitIndex(text[..limit]);
      ChunksBounded(text[k..], limit);
      var cs := Chunks(text, limit);
      assert forall i :: 1 <= i < |cs| ==> cs[i] == Chunks(text[k..], limit)[i - 1];
    }
  }

  lemma {:induction false} ConcatLengthBound(cs: seq<string>, limit: nat)
    requires forall i :: 0 <= i < |cs| ==> |cs[i]| <= limit
    ensures |Concat(cs)| <= |cs| * limit
  {
    if cs != [] {
      ConcatLengthBound(cs[1..], limit);
    }
  }

  /** A text needs at least `len(text) / limit` chunks, and a text longer than `limit` at least two. */
  lemma ChunkCount(text: string, limit: nat)
    requires limit > 0
    ensures |Chunks(text, limit)| * limit >= |text|
    ensures |text| > limit ==> |Chunks(text, limit)| >= 2
  {
    var cs := Chunks(text, limit);
    ChunksConcat(text, limit);
    ChunksBounded(text, limit);
    ConcatLengthBound(cs, limit);
    if |cs| <= 1 {
      assert |cs| * limit <= limit;
    }
  }

  /** The first chunk of a long text: the text up to the cut the separator preference picks in its first `limit` characters. */
  lemma FirstChunk(text: string, limit: nat)
    requires 0 < limit < |text|
    ensures Chunks(text, limit)[0] == text[..SplitIndex(text[..limit])]
    ensures Chunks(text, limit)[1..] == Chunks(text[SplitIndex(text[..limit])..], limit)
  {
  }

  /** `split_into_chunks(text, limit)`; a non-positive `limit` raises `ValueError`. */
  method SplitIntoChunks(text: string, limit: int) returns (r: Result<seq<string>, string>)
    ensures r.Err? <==> limit <= 0
    ensures r.Ok? ==> r.value == Chunks(text, limit)
    ensures r.Ok? && text == [] ==> r.value == []
    ensures r.Ok? && 0 < |text| <= limit ==> r.value == [text]
  {
    if limit <= 0 {
      return Err("limit must be > 0");
    }
    var chunks: seq<string> := [];
    var remaining := text;
    while remaining != []
      invariant chunks + Chunks(remaining, limit) == Chunks(text, limit)
      decreases |remaining|
    {
      if |remaining| <= limit {
        chunks := chunks + [remaining];
        remaining := [];
        assert Chunks(remaining, limit) == [];
        break;
      }
      var window := remaining[..limit];
      var splitIndex := -1;
      var i := 0;
      while i < |Separators|
        invariant 0 <= i <= |Separators|
        invariant splitIndex == -1 ==> SeparatorCut(window, Separators) == SeparatorCut(window, Separators[i..])
        invariant splitIndex != -1 ==> SeparatorCut(window, Separators) == splitIndex
      {
        var pos := RFind(window, Separators[i]);
        if pos > 0 {
          splitIndex := pos + |Separators[i]|;
          break;
        }
        assert Separators[i..][1..] == Separators[i + 1..];
        i := i + 1;
      }
      if splitIndex <= 0 {
        splitIndex := limit;
      }
      assert splitIndex == SplitIndex(window);
      var chunk := remaining[..splitIndex];
      if chunk != [] {
        chunks := chunks + [chunk];
      }
      remaining := remaining[splitIndex..];
    }
    return Ok(chunks);
  }
}
