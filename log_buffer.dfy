/**
 * The in-memory log buffer behind the log viewer (app/handlers/logs.go):
 * a FIFO of at most maxSize non-empty lines.  The mutex, the writer that
 * feeds it and the WebSocket broadcast are outside the model.
 */
module Logs {
  import opened GoStrings

  /** The buffer the service creates at start-up holds 1000 lines. */
  const DefaultMaxSize: nat := 1000

  /** The lines of a message: trailing newlines trimmed, then split at each newline. */
  function Lines(message: string): (lines: seq<string>)
    ensures forall k :: 0 <= k < |lines| ==> '\n' !in lines[k]
    ensures Join(lines, '\n') == TrimRight(message, '\n')
  {
    Split(TrimRight(message, '\n'), '\n')
  }

  /** The non-empty lines, in order. */
  function NonEmpty(lines: seq<string>): (r: seq<string>)
    ensures forall k :: 0 <= k < |r| ==> r[k] != "" && r[k] in lines
    ensures |r| <= |lines|
    ensures (forall k :: 0 <= k < |lines| ==> lines[k] != "") ==> r == lines
  {
    if |lines| == 0 then []
    else
      var init := NonEmpty(lines[..|lines| - 1]);
      assert forall k :: 0 <= k < |lines| - 1 ==> lines[..|lines| - 1][k] == lines[k];
      if lines[|lines| - 1] == "" then init else init + [lines[|lines| - 1]]
  }

  /** The last n elements of s (all of s when it is shorter). */
  function LastN(s: seq<string>, n: nat): (r: seq<string>)
    ensures |r| == if |s| <= n then |s| else n
    ensures r == s[|s| - |r|..]
  {
    if |s| <= n then s else s[|s| - n..]
  }

  /** Dropping the oldest elements before an append is the same as dropping them after it. */
  lemma LastNAppend(s: seq<string>, x: string, n: nat)
    requires n > 0
    ensures LastN(LastN(s, n) + [x], n) == LastN(s + [x], n)
  {
    var t := LastN(s, n);
    if |s| > n {
      assert (t + [x])[1..] == (s + [x])[|s| + 1 - n..];
    }
  }

  /** Filtering one more line appends it when it is not empty. */
  lemma NonEmptySnoc(lines: seq<string>, i: nat)
    requires i < |lines|
    ensures NonEmpty(lines[..i + 1]) == NonEmpty(lines[..i]) + (if lines[i] == "" then [] else [lines[i]])
  {
    assert lines[..i + 1][..i] == lines[..i];
  }

  /** The lines kept after i + 1 lines, behind earlier lines o. */
  lemma KeptStep(o: seq<string>, lines: seq<string>, i: nat)
    requires i < |lines|
    ensures lines[i] == "" ==> o + NonEmpty(lines[..i + 1]) == o + NonEmpty(lines[..i])
    ensures lines[i] != "" ==> o + NonEmpty(lines[..i + 1]) == (o + NonEmpty(lines[..i])) + [lines[i]]
  {
    NonEmptySnoc(lines, i);
  }

  /** Dropping the oldest line of a full buffer and appending is keeping the last n. */
  lemma DropOldestAppend(m: seq<string>, x: string, n: nat)
    requires 0 < n && |m| <= n
    ensures (if |m| >= n then m[1..] else m) + [x] == LastN(m + [x], n)
  {
  }

  /** Lines that are not empty and hold no newline. */
  predicate SingleLines(s: seq<string>)
  {
    forall k :: 0 <= k < |s| ==> s[k] != "" && '\n' !in s[k]
  }

  /** The filtered lines of any message are single lines. */
  lemma NonEmptyLinesAreSingleLines(message: string)
    ensures SingleLines(NonEmpty(Lines(message)))
  {
    var lines := Lines(message);
    forall k | 0 <= k < |NonEmpty(lines)| ensures '\n' !in NonEmpty(lines)[k]
    {
      var j :| 0 <= j < |lines| && lines[j] == NonEmpty(lines)[k];
    }
  }

  lemma SingleLinesLastN(s: seq<string>, n: nat)
    requires SingleLines(s)
    ensures SingleLines(LastN(s, n))
  {
    var r := LastN(s, n);
    assert forall k :: 0 <= k < |r| ==> r[k] == s[|s| - |r| + k];
  }

  lemma SingleLinesAppend(s: seq<string>, t: seq<string>)
    requires SingleLines(s) && SingleLines(t)
    ensures SingleLines(s + t)
  {
  }

  lemma SingleLinesPrefix(s: seq<string>, i: nat)
    requires SingleLines(s) && i <= |s|
    ensures SingleLines(s[..i])
  {
  }

  /** A message of newlines and nothing else adds no line. */
  lemma BlankMessageAddsNothing(n: nat)
    ensures NonEmpty(Lines(seq(n, _ => '\n'))) == []
  {
    var message := seq(n, _ => '\n');
    assert TrimRight(message, '\n') == "";
    assert Lines(message) == [""];
    assert NonEmpty([""]) == NonEmpty([""][..0]);
  }

  class LogBuffer {
    var messages: seq<string>
    var maxSize: nat

    /** At most maxSize lines, each non-empty and without a newline. */
    ghost predicate Valid()
      reads this
    {
      && 0 < maxSize
      && |messages| <= maxSize
      && SingleLines(messages)
    }

    constructor (maxSize: nat)
      requires maxSize > 0
      ensures Valid() && messages == [] && this.maxSize == maxSize
    {
      messages := [];
      this.maxSize := maxSize;
    }

    /**
     * Add: appends the message's non-empty lines in order, dropping the
     * oldest line whenever the buffer is full, so the buffer becomes the
     * last maxSize lines of the old ones followed by the new ones.
     */
    method Add(message: string)
      requires Valid()
      modifies this
      ensures Valid() && maxSize == old(maxSize)
      ensures messages == LastN(old(messages) + NonEmpty(Lines(message)), maxSize)
      ensures NonEmpty(Lines(message)) == [] ==> messages == old(messages)
    {
      var lines := Lines(message);
      NonEmptyLinesAreSingleLines(message);
      var i := 0;
      ghost var seen := old(messages);
      while i < |lines|
        invariant 0 <= i <= |lines|
        invariant 0 < maxSize == old(maxSize) && |messages| <= maxSize
        invariant seen == old(messages) + NonEmpty(lines[..i])
        invariant messages == LastN(seen, maxSize)
      {
        var line := lines[i];
        KeptStep(old(messages), lines, i);
        if line != "" {
          LastNAppend(seen, line, maxSize);
          DropOldestAppend(messages, line, maxSize);
          if |messages| >= maxSize {
            messages := messages[1..];
          }
          messages := messages + [line];
          seen := seen + [line];
        }
        i := i + 1;
      }
      assert lines[..i] == lines;
      ghost var added := NonEmpty(lines);
      assert seen == old(messages) + added;
      SingleLinesAppend(old(messages), added);
      SingleLinesLastN(seen, maxSize);
      if added == [] {
        assert seen == old(messages);
      }
    }

    /** GetAll: a copy of the lines, oldest first; the buffer is unchanged. */
    method GetAll() returns (result: seq<string>)
      requires Valid()
      ensures result == messages
      ensures |result| <= maxSize
      ensures forall k :: 0 <= k < |result| ==> result[k] != ""
    {
      result := messages;
    }
  }
}
