/**
 * `split_message` of the bot's entry module: cuts an over-long reply into a
 * part that fits one chat message and a remainder, moving the cut back to
 * the last newline and closing (then reopening, with its language tag) a
 * code fence that the cut would leave open.
 *
 * The model follows the code exactly, including two of its quirks: when the
 * part before the cut has no newline, `rfind` answers -1, so the first part
 * loses its last character and the second part is the WHOLE message; and when
 * no newline follows the last fence, the tag slice ends one character before
 * the end of the first part.
 */
module MessageSplit {
  import opened Wrappers
  import opened PyStr

  /** Characters held back from the threshold for the inserted fence markers. */
  const SafetyMargin := 5
  const Fence := "```"

  /** The function either raises (threshold below the margin) or returns `(first, second or None)`. */
  datatype SplitOutcome = ThresholdTooLow | Split(first: string, second: Option<string>)

  /** The hard cut at `t`, then moving everything after the head's last newline into the tail, dropping that newline. */
  function CutAtLastNewline(message: string, t: nat): (string, string)
  {
    var first := Slice(message, 0, t);
    var second := Slice(message, t, |message|);
    var lastNewline := RFind(first, "\n");
    (Slice(first, 0, lastNewline), Slice(first, lastNewline + 1, |first|) + second)
  }

  /** The language tag following the last fence of `first`, up to the next newline. */
  function FenceTag(first: string): string
  {
    var lastMarker := RFind(first, Fence);
    var markerEnd := Find(first, "\n", lastMarker);
    var markerSlice := Slice(first, lastMarker, markerEnd);
    if |markerSlice| > 3 then markerSlice[3..] else ""
  }

  /**
   * Closes an open fence of `first` and reopens it at the front of `second`.
   * Only a first part with an odd number of fences is changed, and afterwards
   * its fence count is even; the original texts stay where they were.
   */
  function RebalanceFences(first: string, second: string): (r: (string, string))
    ensures Count(r.0, Fence) % 2 == 0
    ensures Count(first, Fence) % 2 == 0 ==> r == (first, second)
    ensures Count(first, Fence) % 2 != 0 ==> r == (first + "\n" + Fence, Fence + FenceTag(first) + "\n" + second)
  {
    if Count(first, Fence) % 2 != 0 then
      var closed := first + "\n" + Fence;
      assert Count(closed, Fence) == Count(first, Fence) + 1 by { CountAfterCloser(first); }
      (closed, Fence + FenceTag(first) + "\n" + second)
    else
      (first, second)
  }

  /** The closer adds exactly one fence to the count, whatever precedes it. */
  lemma CountAfterCloser(first: string)
    ensures Count(first + "\n" + Fence, Fence) == Count(first, Fence) + 1
  {
    var closer := "\n" + Fence;
    CountConcat(first, closer, Fence);
    assert first + "\n" + Fence == first + closer;
    assert closer[..3] != Fence by { assert closer[..3][0] == '\n'; }
    assert closer[1..] == Fence;
    assert Fence[..3] == Fence && Fence[3..] == "";
    assert Count(Fence, Fence) == 1;
  }

  /** Python's `split_message(message, threshold)`. */
  function SplitMessage(message: string, threshold: int): (r: SplitOutcome)
    ensures r == ThresholdTooLow <==> threshold < SafetyMargin
    ensures (r.Split? && r.second == None) <==> SafetyMargin <= threshold && |message| < threshold - SafetyMargin
    ensures r.Split? && r.second == None ==> r.first == message
  {
    var t := threshold - SafetyMargin;
    if t < 0 then ThresholdTooLow
    else if |message| < t then Split(message, None)
    else
      var (first, second) := CutAtLastNewline(message, t);
      var (first', second') := RebalanceFences(first, second);
      Split(first', Some(second'))
  }

  /** With a newline at `ln` and none after it before the cut, the newline is consumed and nothing else is lost. */
  lemma CutAtNewline(message: string, t: nat, ln: nat)
    requires t <= |message|
    requires ln < t && message[ln] == '\n'
    requires forall k :: ln < k < t ==> message[k] != '\n'
    ensures CutAtLastNewline(message, t) == (message[..ln], message[ln + 1..])
    ensures message[..ln] + "\n" + message[ln + 1..] == message
  {
    var first := message[..t];
    assert RFind(first, "\n") == ln by {
      RFindSpec(first, "\n");
      OccursAtChar(first, '\n', ln);
      forall k | ln < k ensures !OccursAt(first, "\n", k) {
        OccursAtChar(first, '\n', k);
      }
    }
    assert Slice(message, 0, t) == first;
    assert Slice(first, 0, ln) == message[..ln];
    assert Slice(first, ln + 1, |first|) == message[ln + 1..t] by {
      assert first[ln + 1..t] == message[ln + 1..t];
    }
    assert Slice(message, t, |message|) == message[t..];
    SlicesJoin(message, ln + 1, t, |message|);
    assert message[ln + 1..|message|] == message[ln + 1..];
  }

  /** Without a newline before the cut, the first part drops its last character and the second is the whole message. */
  lemma CutWithoutNewline(message: string, t: nat)
    requires t <= |message|
    requires forall k :: 0 <= k < t ==> message[k] != '\n'
    ensures CutAtLastNewline(message, t) == (if t == 0 then "" else message[..t - 1], message)
  {
    var first := message[..t];
    assert Slice(message, 0, t) == first;
    forall k | true ensures !OccursAt(first, "\n", k) {
      OccursAtChar(first, '\n', k);
    }
    RFindSpec(first, "\n");
    assert RFind(first, "\n") == -1;
    assert Slice(first, 0, -1) == if t == 0 then "" else message[..t - 1];
    assert Slice(first, 0, |first|) == first;
    assert Slice(message, t, |message|) == message[t..];
    assert first + message[t..] == message;
  }

  /** The tag is the text between the last fence and the next newline. */
  lemma FenceTagUpToNewline(first: string, lm: nat, e: nat)
    requires OccursAt(first, Fence, lm)
    requires forall k :: lm < k ==> !OccursAt(first, Fence, k)
    requires lm <= e < |first| && first[e] == '\n'
    requires forall k :: lm <= k < e ==> first[k] != '\n'
    ensures lm + 3 <= e && FenceTag(first) == first[lm + 3..e]
    ensures '\n' !in FenceTag(first)
  {
    RFindSpec(first, Fence);
    FindSpec(first, "\n", lm);
    assert RFind(first, Fence) == lm;
    forall k | lm <= k < e ensures !OccursAt(first, "\n", k) {
      OccursAtChar(first, '\n', k);
    }
    OccursAtChar(first, '\n', e);
    assert Find(first, "\n", lm) == e;
    assert first[lm..lm + 3] == Fence;
    assert forall k :: lm <= k < lm + 3 ==> first[k] == first[lm..lm + 3][k - lm];
    assert lm + 3 <= e;
  }

  /** With no newline after the last fence, the tag stops one character short of the end of `first`. */
  lemma FenceTagWithoutNewline(first: string, lm: nat)
    requires OccursAt(first, Fence, lm)
    requires forall k :: lm < k ==> !OccursAt(first, Fence, k)
    requires forall k :: lm <= k < |first| ==> first[k] != '\n'
    ensures FenceTag(first) == if lm + 3 < |first| - 1 then first[lm + 3..|first| - 1] else ""
  {
    RFindSpec(first, Fence);
    FindSpec(first, "\n", lm);
    assert RFind(first, Fence) == lm;
    forall k | lm <= k ensures !OccursAt(first, "\n", k) {
      OccursAtChar(first, '\n', k);
    }
    assert Find(first, "\n", lm) == -1;
  }

  /** The rebalanced pair written out, with the closer and reopener as optional pieces. */
  lemma RebalanceShape(head: string, tail: string)
    ensures var open := Count(head, Fence) % 2 != 0;
            RebalanceFences(head, tail)
            == (head + (if open then "\n" + Fence else ""), (if open then Fence + FenceTag(head) + "\n" else "") + tail)
  {
    if Count(head, Fence) % 2 == 0 {
      assert head + "" == head && "" + tail == tail;
    } else {
      assert head + "\n" + Fence == head + ("\n" + Fence);
    }
  }

  /** Past the margin checks, the result is the cut `(head, tail)` with its fences rebalanced. */
  lemma SplitIsRebalancedCut(message: string, threshold: int, head: string, tail: string)
    requires SafetyMargin <= threshold && threshold - SafetyMargin <= |message|
    requires CutAtLastNewline(message, threshold - SafetyMargin) == (head, tail)
    ensures SplitMessage(message, threshold)
            == Split(RebalanceFences(head, tail).0, Some(RebalanceFences(head, tail).1))
  {
  }

  /** The newline case, fences included: exactly the text before the newline, plus a closer when a fence is open. */
  lemma SplitAtNewline(message: string, threshold: int, ln: nat)
    requires SafetyMargin <= threshold && threshold - SafetyMargin <= |message|
    requires ln < threshold - SafetyMargin && message[ln] == '\n'
    requires forall k :: ln < k < threshold - SafetyMargin ==> message[k] != '\n'
    ensures var open := Count(message[..ln], Fence) % 2 != 0;
            SplitMessage(message, threshold)
            == Split(message[..ln] + (if open then "\n" + Fence else ""),
                     Some((if open then Fence + FenceTag(message[..ln]) + "\n" else "") + message[ln + 1..]))
  {
    var t := threshold - SafetyMargin;
    var head, tail := message[..ln], message[ln + 1..];
    assert CutAtLastNewline(message, t) == (head, tail) by {
      CutAtNewline(message, t, ln);
    }
    SplitIsRebalancedCut(message, threshold, head, tail);
    RebalanceShape(head, tail);
  }

  /** The newline-free case, fences included: the second part repeats the whole message. */
  lemma SplitWithoutNewline(message: string, threshold: int)
    requires SafetyMargin <= threshold && threshold - SafetyMargin <= |message|
    requires forall k :: 0 <= k < threshold - SafetyMargin ==> message[k] != '\n'
    ensures var t := threshold - SafetyMargin;
            var head := if t == 0 then "" else message[..t - 1];
            var open := Count(head, Fence) % 2 != 0;
            SplitMessage(message, threshold)
            == Split(head + (if open then "\n" + Fence else ""),
                     Some((if open then Fence + FenceTag(head) + "\n" else "") + message))
  {
    var t := threshold - SafetyMargin;
    var head := if t == 0 then "" else message[..t - 1];
    assert CutAtLastNewline(message, t) == (head, message) by {
      CutWithoutNewline(message, t);
    }
    SplitIsRebalancedCut(message, threshold, head, message);
    RebalanceShape(head, message);
  }

  /** Whenever a split happens, the first part fits in `threshold - 2` characters and closes every fence it opens. */
  lemma SplitFirstBounded(message: string, threshold: int)
    requires SplitMessage(message, threshold).Split? && SplitMessage(message, threshold).second.Some?
    ensures |SplitMessage(message, threshold).first| <= threshold - 2
    ensures Count(SplitMessage(message, threshold).first, Fence) % 2 == 0
  {
    var t := threshold - SafetyMargin;
    var first := message[..t];
    assert Count(SplitMessage(message, threshold).first, Fence) % 2 == 0 by {
      var cut := CutAtLastNewline(message, t);
      SplitIsRebalancedCut(message, threshold, cut.0, cut.1);
    }
    var ln := RFind(first, "\n");
    RFindSpec(first, "\n");
    if ln == -1 {
      forall k | 0 <= k < t ensures message[k] != '\n' {
        OccursAtChar(first, '\n', k);
      }
      SplitWithoutNewline(message, threshold);
    } else {
      OccursAtChar(first, '\n', ln);
      forall k | ln < k < t ensures message[k] != '\n' {
        OccursAtChar(first, '\n', k);
      }
      SplitAtNewline(message, threshold, ln);
    }
  }

  /** Without a newline the text is duplicated: "abcdefghij" at threshold 10 gives "abcd" and the whole message. */
  lemma SplitDuplicatesExample()
    ensures SplitMessage("abcdefghij", 10) == Split("abcd", Some("abcdefghij"))
  {
    var m := "abcdefghij";
    var head := m[..4];
    assert head == "abcd";
    assert Count(head, Fence) == 0 by {
      CountWithoutFirstChar(head, Fence);
    }
    assert SplitMessage(m, 10) == Split(head, Some(m)) by {
      assert forall k :: 0 <= k < 5 ==> m[k] != '\n';
      SplitWithoutNewline(m, 10);
      assert head + "" == head && "" + m == m;
    }
  }

  /** The newline case with an open fence whose tag is `tag`. */
  lemma SplitAtNewlineOpenFence(message: string, threshold: int, ln: nat, tag: string)
    requires SafetyMargin <= threshold && threshold - SafetyMargin <= |message|
    requires ln < threshold - SafetyMargin && message[ln] == '\n'
    requires forall k :: ln < k < threshold - SafetyMargin ==> message[k] != '\n'
    requires Count(message[..ln], Fence) % 2 != 0 && FenceTag(message[..ln]) == tag
    ensures SplitMessage(message, threshold)
            == Split(message[..ln] + "\n" + Fence, Some(Fence + tag + "\n" + message[ln + 1..]))
  {
    SplitAtNewline(message, threshold, ln);
    assert message[..ln] + ("\n" + Fence) == message[..ln] + "\n" + Fence;
    assert Fence + tag + "\n" + message[ln + 1..] == (Fence + tag + "\n") + message[ln + 1..];
  }

  /** The head "```py\nab" holds one fence, whose tag is "py". */
  lemma PyHeadFacts(head: string)
    requires head == "```py\nab"
    ensures Count(head, Fence) == 1
    ensures FenceTag(head) == "py"
  {
    assert head[..3] == Fence;
    assert Count(head, Fence) == 1 + Count(head[3..], Fence);
    CountWithoutFirstChar(head[3..], Fence);
    forall k | 0 < k ensures !OccursAt(head, Fence, k) {
      OccursAtLastChar(head, Fence, k);
    }
    FenceTagUpToNewline(head, 0, 5);
    assert head[3..5] == "py";
  }

  /**
   * An open `py` block is closed in the first part and reopened with its tag in
   * the second: "```py\nab\n" followed by two more characters, at threshold 14.
   */
  lemma SplitReopensFenceExample(m: string)
    requires |m| == 11 && m[..8] == "```py\nab" && m[8] == '\n'
    ensures SplitMessage(m, 14) == Split("```py\nab\n```", Some("```py\n" + m[9..]))
  {
    var head := m[..8];
    assert head + "\n" + Fence == "```py\nab\n```";
    assert Fence + "py" + "\n" == "```py\n";
    PyHeadFacts(head);
    SplitAtNewlineOpenFence(m, 14, 8, "py");
  }
}
