/** Validation issues and how a rejection renders them: each issue as
    `path: message`, all of them joined by ", " into the reply's `error`
    text. */
module Issues {
  import opened Text

  /** One reported problem: the path to the field and a message. */
  datatype Issue = Issue(path: seq<string>, message: string)

  /** One issue as the reply shows it: its path joined by dots, a colon, a
      space and the message. */
  function RenderIssue(i: Issue): string
  {
    Join(i.path, ".") + ": " + i.message
  }

  function RenderAll(issues: seq<Issue>): (r: seq<string>)
    ensures |r| == |issues|
    ensures forall k :: 0 <= k < |issues| ==> r[k] == RenderIssue(issues[k])
  {
    seq(|issues|, k requires 0 <= k < |issues| => RenderIssue(issues[k]))
  }

  /** The `error` text of a validation reply: the rendered issues joined by ", ". */
  function ErrorText(issues: seq<Issue>): string
  {
    Join(RenderAll(issues), ", ")
  }

  /** The `error` text of a rejection is as long as the rendered issues
      plus one ", " between each neighbouring pair. */
  lemma ErrorTextLength(issues: seq<Issue>)
    requires |issues| > 0
    ensures |ErrorText(issues)| ==
              PartOffset(RenderAll(issues), ", ", |issues| - 1) + |RenderIssue(issues[|issues| - 1])|
  {
    JoinLength(RenderAll(issues), ", ");
  }

  /** The `k`-th issue appears, rendered as `path: message`, at its offset in
      the `error` text. */
  lemma ErrorTextIssueAt(issues: seq<Issue>, k: nat)
    requires k < |issues|
    ensures PartOffset(RenderAll(issues), ", ", k) + |RenderIssue(issues[k])| <= |ErrorText(issues)|
    ensures ErrorText(issues)[PartOffset(RenderAll(issues), ", ", k)..
                              PartOffset(RenderAll(issues), ", ", k) + |RenderIssue(issues[k])|]
            == RenderIssue(issues[k])
  {
    var parts := RenderAll(issues);
    assert ErrorText(issues) == Join(parts, ", ");
    assert parts[k] == RenderIssue(issues[k]);
    JoinPartAt(parts, ", ", k);
  }

  /** Between the `k`-th rendered issue and the next the `error` text holds
      exactly ", ". */
  lemma ErrorTextSeparatorAt(issues: seq<Issue>, k: nat)
    requires k + 1 < |issues|
    ensures PartOffset(RenderAll(issues), ", ", k + 1) <= |ErrorText(issues)|
    ensures ErrorText(issues)[PartOffset(RenderAll(issues), ", ", k) + |RenderIssue(issues[k])|..
                              PartOffset(RenderAll(issues), ", ", k + 1)]
            == ", "
  {
    var parts := RenderAll(issues);
    assert ErrorText(issues) == Join(parts, ", ");
    assert parts[k] == RenderIssue(issues[k]);
    JoinSeparatorAt(parts, ", ", k);
  }

  /** A rejection with one issue about a top-level field reads
      `field: message`, with no separator. */
  lemma SingleIssueText(key: string, message: string)
    ensures ErrorText([Issue([key], message)]) == key + ": " + message
  {
    var issues := [Issue([key], message)];
    assert Join([key], ".") == key;
    assert RenderAll(issues) == [RenderIssue(issues[0])];
  }
}
