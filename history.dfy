/**
 * The command history of the shell: every command line is appended, and
 * once more than HistoryLimit lines are held the oldest one is dropped.
 */
module CommandHistory {

  const HistoryLimit: nat := 100

  /** The history after recording `line`: appended at the back, the front dropped past the limit. */
  function PushHistory(h: seq<string>, line: string): (r: seq<string>)
  {
    var h' := h + [line];
    if |h'| > HistoryLimit then h'[1..] else h'
  }

  /** Recording a line into a history within the limit keeps it within the limit, ends with the line, and drops at most the oldest entry. */
  lemma PushHistoryBounded(h: seq<string>, line: string)
    requires |h| <= HistoryLimit
    ensures |PushHistory(h, line)| <= HistoryLimit
    ensures PushHistory(h, line)[|PushHistory(h, line)| - 1] == line
    ensures |h| < HistoryLimit ==> PushHistory(h, line) == h + [line]
    ensures |h| == HistoryLimit ==> PushHistory(h, line) == h[1..] + [line]
  {
  }

  /** The history after recording `lines` one after the other, starting from none. */
  function Replay(lines: seq<string>): (r: seq<string>)
  {
    if lines == [] then [] else PushHistory(Replay(lines[..|lines| - 1]), lines[|lines| - 1])
  }

  /** The history always holds exactly the most recent lines, HistoryLimit of them at most, oldest first. */
  lemma {:induction false} ReplayKeepsLatest(lines: seq<string>)
    ensures |lines| <= HistoryLimit ==> Replay(lines) == lines
    ensures |lines| > HistoryLimit ==> Replay(lines) == lines[|lines| - HistoryLimit..]
  {
    if lines != [] {
      var init := lines[..|lines| - 1];
      var last := lines[|lines| - 1];
      ReplayKeepsLatest(init);
      if |lines| <= HistoryLimit {
        assert init + [last] == lines;
      } else if |init| == HistoryLimit {
        assert Replay(init) == init;
        assert (init + [last])[1..] == lines[|lines| - HistoryLimit..];
      } else {
        var h := init[|init| - HistoryLimit..];
        assert Replay(init) == h;
        assert h + [last] == lines[|init| - HistoryLimit..];
        assert (h + [last])[1..] == lines[|lines| - HistoryLimit..];
      }
    }
  }
}
