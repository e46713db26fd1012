/**
 * The mocked model server of the backend tests: `find_next_separator` and the
 * streamed completion of `LlamaMock`, which cuts the canned response into
 * chunks that each end at the first separator, the last one marked `stop`.
 */
module LlamaMock {
  import opened Wrappers

  /** The characters the mock cuts after. */
  const Separators := " \n"

  /** One streamed response piece: its text, and whether it is the last. */
  datatype Chunk = Chunk(content: string, stop: bool)

  /** The text of a stream: every chunk's content, in order. */
  function Joined(chunks: seq<Chunk>): string
  {
    if chunks == [] then "" else Joined(chunks[..|chunks| - 1]) + chunks[|chunks| - 1].content
  }

  /** No character of `s` is a separator. */
  predicate NoSeparator(s: string, separators: string)
  {
    forall k :: 0 <= k < |s| ==> s[k] !in separators
  }

  /** A chunk before the last: not `stop`, ends with a separator, and holds no other. */
  predicate IsWordChunk(c: Chunk, separators: string)
  {
    && !c.stop
    && |c.content| > 0
    && c.content[|c.content| - 1] in separators
    && NoSeparator(c.content[..|c.content| - 1], separators)
  }

  /** The shape of every stream the mock produces for `response`. */
  predicate WellChunked(chunks: seq<Chunk>, response: string, separators: string)
  {
    && |chunks| >= 1
    && Joined(chunks) == response
    && (forall i :: 0 <= i < |chunks| - 1 ==> IsWordChunk(chunks[i], separators))
    && chunks[|chunks| - 1].stop
    && NoSeparator(chunks[|chunks| - 1].content, separators)
  }

  /** The smallest index whose character is a separator, or `None` when there is none. */
  method FindNextSeparator(s: string, separators: string) returns (r: Option<nat>)
    ensures r == None <==> NoSeparator(s, separators)
    ensures r.Some? ==> r.value < |s| && s[r.value] in separators && NoSeparator(s[..r.value], separators)
  {
    for i := 0 to |s|
      invariant NoSeparator(s[..i], separators)
    {
      if s[i] in separators {
        return Some(i);
      }
    }
    assert s[..|s|] == s;
    return None;
  }

  class LlamaMockServer {
    var timeout: int
    var mockIsAlive: bool
    var mockResponse: string

    constructor (timeout: int)
      ensures this.timeout == timeout && mockIsAlive && mockResponse == ""
    {
      this.timeout := timeout;
      mockIsAlive := true;
      mockResponse := "";
    }

    /** The whole stream `get_streamed_completion` yields for the current canned response. */
    method GetStreamedCompletion() returns (chunks: seq<Chunk>)
      ensures WellChunked(chunks, mockResponse, Separators)
    {
      var words := mockResponse;
      var separatorIndex: Option<nat> := FindNextSeparator(words, Separators);
      chunks := [];
      while separatorIndex.Some?
        invariant Joined(chunks) + words == mockResponse
        invariant forall i :: 0 <= i < |chunks| ==> IsWordChunk(chunks[i], Separators)
        invariant separatorIndex == None <==> NoSeparator(words, Separators)
        invariant separatorIndex.Some? ==> separatorIndex.value < |words|
        invariant separatorIndex.Some? ==> words[separatorIndex.value] in Separators
        invariant separatorIndex.Some? ==> NoSeparator(words[..separatorIndex.value], Separators)
        decreases |words|
      {
        var cut := separatorIndex.value + 1;
        var chunk := Chunk(words[..cut], false);
        assert IsWordChunk(chunk, Separators) by {
          assert chunk.content[..cut - 1] == words[..cut - 1];
        }
        JoinedAppend(chunks, chunk);
        assert words[..cut] + words[cut..] == words;
        chunks := chunks + [chunk];
        words := words[cut..];
        separatorIndex := FindNextSeparator(words, Separators);
      }
      JoinedAppend(chunks, Chunk(words, true));
      chunks := chunks + [Chunk(words, true)];
    }
  }

  /** Joining a stream with one more chunk appends that chunk's text. */
  lemma JoinedAppend(chunks: seq<Chunk>, c: Chunk)
    ensures Joined(chunks + [c]) == Joined(chunks) + c.content
  {
    assert (chunks + [c])[..|chunks|] == chunks;
  }

  /** Joining a stream's first chunk and then the rest gives its text. */
  lemma {:induction false} JoinedFront(chunks: seq<Chunk>)
    requires |chunks| >= 1
    ensures Joined(chunks) == chunks[0].content + Joined(chunks[1..])
    decreases |chunks|
  {
    if |chunks| > 1 {
      var init := chunks[..|chunks| - 1];
      JoinedFront(init);
      assert init[1..] == chunks[1..][..|chunks[1..]| - 1];
    } else {
      assert chunks[1..] == [];
    }
  }

  /** Two prefixes that each end at a separator and hold no earlier one have the same length. */
  lemma FirstSeparatorUnique(s: string, separators: string, p: nat, q: nat)
    requires 0 < p <= |s| && s[p - 1] in separators && NoSeparator(s[..p - 1], separators)
    requires 0 < q <= |s| && s[q - 1] in separators && NoSeparator(s[..q - 1], separators)
    ensures p == q
  {
    assert forall k :: 0 <= k < p - 1 ==> s[..p - 1][k] == s[k];
    assert forall k :: 0 <= k < q - 1 ==> s[..q - 1][k] == s[k];
  }

  /**
   * The first chunk of a well-chunked stream: the whole separator-free
   * response when it is the only one, otherwise the response up to and
   * including its first separator, followed by a well-chunked rest.
   */
  lemma FirstChunk(a: seq<Chunk>, response: string, separators: string)
    requires WellChunked(a, response, separators)
    ensures response == a[0].content + Joined(a[1..])
    ensures |a| == 1 ==> a == [Chunk(response, true)] && NoSeparator(response, separators)
    ensures |a| > 1 ==>
              var c := a[0].content;
              && 0 < |c| <= |response| && c == response[..|c|]
              && response[|c| - 1] in separators && NoSeparator(response[..|c| - 1], separators)
              && !a[0].stop
              && WellChunked(a[1..], response[|c|..], separators)
  {
    JoinedFront(a);
    var c := a[0].content;
    if |a| == 1 {
      assert a[1..] == [] && Joined(a[1..]) == "";
      assert a[0] == Chunk(response, true);
      assert a == [a[0]];
    } else {
      assert IsWordChunk(a[0], separators);
      assert response[..|c|] == c;
      assert response[..|c| - 1] == c[..|c| - 1];
      var rest := a[1..];
      forall i | 0 <= i < |rest| - 1 ensures IsWordChunk(rest[i], separators) {
        assert rest[i] == a[i + 1];
      }
    }
  }

  /**
   * A response has exactly one stream of this shape: the first chunk runs up
   * to and including the first separator (or is the whole text when there is
   * none), and the rest is the stream of what follows.
   */
  lemma {:induction false} WellChunkedUnique(a: seq<Chunk>, b: seq<Chunk>, response: string, separators: string)
    requires WellChunked(a, response, separators) && WellChunked(b, response, separators)
    ensures a == b
    decreases |a|
  {
    FirstChunk(a, response, separators);
    FirstChunk(b, response, separators);
    var ca, cb := a[0].content, b[0].content;
    if |a| == 1 && |b| == 1 {
    } else if |a| == 1 {
      assert false;
    } else if |b| == 1 {
      assert false;
    } else {
      FirstSeparatorUnique(response, separators, |ca|, |cb|);
      assert a[0] == b[0];
      WellChunkedUnique(a[1..], b[1..], response[|ca|..], separators);
      assert a == [a[0]] + a[1..] && b == [b[0]] + b[1..];
    }
  }

  /** The stream the backend test expects for "This is a dummy response". */
  lemma DummyResponseChunks(chunks: seq<Chunk>)
    requires WellChunked(chunks, "This is a dummy response", Separators)
    ensures chunks == [Chunk("This ", false), Chunk("is ", false), Chunk("a ", false),
                       Chunk("dummy ", false), Chunk("response", true)]
  {
    var expected := [Chunk("This ", false), Chunk("is ", false), Chunk("a ", false),
                     Chunk("dummy ", false), Chunk("response", true)];
    assert Joined(expected[..1]) == "This " by { assert expected[..1][..0] == []; }
    assert Joined(expected[..2]) == "This is " by { assert expected[..2][..1] == expected[..1]; }
    assert Joined(expected[..3]) == "This is a " by { assert expected[..3][..2] == expected[..2]; }
    assert Joined(expected[..4]) == "This is a dummy " by { assert expected[..4][..3] == expected[..3]; }
    assert expected[..5][..4] == expected[..4];
    assert Joined(expected) == "This is a dummy response";
    assert WellChunked(expected, "This is a dummy response", Separators);
    WellChunkedUnique(chunks, expected, "This is a dummy response", Separators);
  }

  /** An empty or separator-free response comes back as one `stop` chunk holding all of it. */
  lemma SeparatorFreeSingleChunk(chunks: seq<Chunk>, response: string, separators: string)
    requires WellChunked(chunks, response, separators) && NoSeparator(response, separators)
    ensures chunks == [Chunk(response, true)]
  {
    var single := [Chunk(response, true)];
    assert Joined(single) == response by { assert single[..0] == []; }
    WellChunkedUnique(chunks, single, response, separators);
  }
}
