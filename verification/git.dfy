/** The git helpers of util/git.go. The git binary itself is not modelled: whether a path is a
    work tree (`git rev-parse --is-inside-work-tree`) and what a git command printed are inputs,
    and the commands the helpers would run are returned as values. */
module Git {
  import opened Results
  import opened Strings

  /** One entry of `git log --oneline`. */
  datatype LogItem = LogItem(sha1: string, commit: string)

  datatype GitError = NotAGit | CommandFailed | RemoteExists

  /** A git invocation: the working directory it runs in ("" is the server's own working
      directory) and the arguments after `git`. */
  datatype GitCommand = GitCommand(dir: string, args: seq<string>)

  /** Removes the text from the first '(' through the first ')' when the line has both. */
  function StripDecoration(line: string): string
  {
    var start, end := IndexOf(line, '('), IndexOf(line, ')');
    if start >= 0 && end >= 0 then line[..start] + line[end + 1..] else line
  }

  /** One line of `git log --oneline`: split on single spaces, field 0 is the hash and the
      remaining fields, glued together without separator, are the message. */
  function ParseLine(line: string): Option<LogItem>
  {
    ParseFields(StripDecoration(line))
  }

  /** The field split of an undecorated line. */
  function ParseFields(str: string): Option<LogItem>
  {
    var params := Split(str, ' ');
    if |params| < 2 then None else Some(LogItem(params[0], Concat(params[1..])))
  }

  /** What a log line means, stated without `Split`: no entry when the line has no space;
      otherwise the hash is the text before the first space and the message is everything
      after it with all spaces deleted. */
  function HashAndMessage(str: string): Option<LogItem>
  {
    var i := IndexOf(str, ' ');
    if i < 0 then None else Some(LogItem(str[..i], Without(str[i + 1..], ' ')))
  }

  /** `ParseLine` is `HashAndMessage` of the line with its decoration removed. */
  lemma ParseLineMeaning(line: string)
    ensures ParseLine(line) == HashAndMessage(StripDecoration(line))
  {
    ParseFieldsMeaning(StripDecoration(line));
  }

  lemma ParseFieldsMeaning(str: string)
    ensures ParseFields(str) == HashAndMessage(str)
  {
    var i := IndexOf(str, ' ');
    if i >= 0 {
      var params, rest := Split(str, ' '), str[i + 1..];
      assert params[0] == str[..i] && params[1..] == Split(rest, ' ') by {
        SplitAt(str, ' ', i);
      }
      calc {
        ParseFields(str);
        Some(LogItem(str[..i], Concat(Split(rest, ' '))));
        { ConcatSplit(rest, ' '); }
        Some(LogItem(str[..i], Without(rest, ' ')));
        HashAndMessage(str);
      }
    }
  }

  /** Parses every line, skipping the ones `ParseLine` rejects. */
  function ParseLines(lines: seq<string>): (items: seq<LogItem>)
    ensures |items| <= |lines|
  {
    if |lines| == 0 then []
    else
      match ParseLine(lines[0])
      case None => ParseLines(lines[1..])
      case Some(item) => [item] + ParseLines(lines[1..])
  }

  /** `GitLog`: fails with "not a git" outside a work tree and when the command fails;
      otherwise parses every line of the trimmed output. `output` is `None` when
      `git log` reported an error. */
  function GitLog(isGit: bool, output: Option<string>): (r: Result<seq<LogItem>, GitError>)
    ensures !isGit ==> r == Err(NotAGit)
    ensures isGit && output.None? ==> r == Err(CommandFailed)
    ensures r.Ok? <==> isGit && output.Some?
    ensures r.Ok? ==> |r.value| <= |Split(TrimSpace(output.value), '\n')|
  {
    if !isGit then Err(NotAGit)
    else match output
      case None => Err(CommandFailed)
      case Some(out) => Ok(ParseLines(Split(TrimSpace(out), '\n')))
  }

  /** The values present, in order. */
  function Present<T>(xs: seq<Option<T>>): seq<T>
  {
    if |xs| == 0 then []
    else (if xs[0].Some? then [xs[0].value] else []) + Present(xs[1..])
  }

  /** What each line means on its own, position by position. */
  function LineMeanings(lines: seq<string>): (ms: seq<Option<LogItem>>)
    ensures |ms| == |lines|
    ensures forall k :: 0 <= k < |lines| ==> ms[k] == HashAndMessage(StripDecoration(lines[k]))
  {
    seq(|lines|, k requires 0 <= k < |lines| => HashAndMessage(StripDecoration(lines[k])))
  }

  /** Parsing keeps, in order, the meaning of every line that has one. */
  lemma {:induction false} ParseLinesMeaning(lines: seq<string>)
    ensures ParseLines(lines) == Present(LineMeanings(lines))
  {
    if |lines| > 0 {
      ParseLinesMeaning(lines[1..]);
      ParseLineMeaning(lines[0]);
      assert LineMeanings(lines)[1..] == LineMeanings(lines[1..]);
    }
  }

  /** Every line of the trimmed output contributes, in order, its hash and message once the
      decoration is removed; a line without a space after that contributes nothing. */
  lemma GitLogMeaning(out: string)
    ensures GitLog(true, Some(out)) == Ok(Present(LineMeanings(Split(TrimSpace(out), '\n'))))
  {
    ParseLinesMeaning(Split(TrimSpace(out), '\n'));
  }

  /** When every line has a meaning, the log has one entry per line, at the same position. */
  lemma {:induction false} PresentAll<T>(xs: seq<Option<T>>)
    requires forall k :: 0 <= k < |xs| ==> xs[k].Some?
    ensures |Present(xs)| == |xs|
    ensures forall k :: 0 <= k < |xs| ==> Present(xs)[k] == xs[k].value
  {
    if |xs| > 0 {
      PresentAll(xs[1..]);
      assert forall k :: 1 <= k < |xs| ==> xs[1..][k - 1] == xs[k];
    }
  }

  /** An output whose every line holds a hash and a message gives one entry per line, at the
      line's own position. */
  lemma GitLogEveryLine(out: string)
    requires var lines := Split(TrimSpace(out), '\n');
      forall k :: 0 <= k < |lines| ==> ' ' in StripDecoration(lines[k])
    ensures var lines := Split(TrimSpace(out), '\n');
      var items := GitLog(true, Some(out)).value;
      && |items| == |lines|
      && forall k :: 0 <= k < |lines| ==> Some(items[k]) == HashAndMessage(StripDecoration(lines[k]))
  {
    var lines := Split(TrimSpace(out), '\n');
    GitLogMeaning(out);
    var ms := LineMeanings(lines);
    forall k | 0 <= k < |lines|
      ensures ms[k].Some?
    {
      assert IndexOf(StripDecoration(lines[k]), ' ') >= 0;
    }
    PresentAll(ms);
  }

  /** No parsed hash or message contains a space. */
  lemma {:induction false} ParseLinesNoSpaces(lines: seq<string>)
    ensures forall k :: 0 <= k < |ParseLines(lines)| ==>
      ' ' !in ParseLines(lines)[k].sha1 && ' ' !in ParseLines(lines)[k].commit
  {
    if |lines| > 0 {
      ParseLinesNoSpaces(lines[1..]);
      var line := lines[0];
      ParseLineMeaning(line);
    }
  }

  /** Trimming a string that neither starts nor ends with white space changes nothing. */
  lemma TrimSpaceNoop(s: string)
    requires s == "" || (!IsSpace(s[0]) && !IsSpace(s[|s| - 1]))
    ensures TrimSpace(s) == s
  {
    if s != "" {
      assert LeadingSpaces(s) == 0;
      assert TrailingSpaces(s) == 0;
    }
  }

  /** A hash followed by one space and the rest of the line. */
  lemma HashAndMessageOf(sha: string, rest: string)
    requires ' ' !in sha
    ensures HashAndMessage(sha + " " + rest) == Some(LogItem(sha, Without(rest, ' ')))
  {
    var str := sha + " " + rest;
    assert str[..|sha|] == sha;
    assert str[|sha| + 1..] == rest;
    assert IndexOf(str, ' ') == |sha| by {
      assert str[|sha|] == ' ';
    }
  }

  /** A one-line output whose only line is `line`, already trimmed. */
  lemma SingleLineOutput(line: string)
    requires |line| > 0 && !IsSpace(line[0]) && !IsSpace(line[|line| - 1])
    requires '\n' !in line
    ensures Split(TrimSpace(line), '\n') == [line]
  {
    TrimSpaceNoop(line);
  }

  /** A single trimmed line that parses to `item` is the whole log. */
  lemma GitLogOfLine(line: string, item: LogItem)
    requires Split(TrimSpace(line), '\n') == [line]
    requires ParseLine(line) == Some(item)
    ensures GitLog(true, Some(line)) == Ok([item])
  {
    assert ParseLines([line]) == [item];
  }

  /** A clean one-line log "sha message" parses back to its hash, with the message's spaces
      removed. */
  lemma GitLogOneLine(sha: string, msg: string)
    requires |sha| > 0 && !IsSpace(sha[0])
    requires |msg| > 0 && !IsSpace(msg[|msg| - 1])
    requires ' ' !in sha
    requires '\n' !in sha && '\n' !in msg
    requires '(' !in sha && '(' !in msg
    ensures GitLog(true, Some(sha + " " + msg)) == Ok([LogItem(sha, Without(msg, ' '))])
  {
    var line := sha + " " + msg;
    assert line[0] == sha[0] && line[|line| - 1] == msg[|msg| - 1];
    SingleLineOutput(line);
    var item := LogItem(sha, Without(msg, ' '));
    assert ParseLine(line) == Some(item) by {
      assert StripDecoration(line) == line by {
        assert '(' !in line;
      }
      ParseLineMeaning(line);
      HashAndMessageOf(sha, msg);
    }
    GitLogOfLine(line, item);
  }

  /** `IndexOf` finds position `i` when `c` sits there and nowhere before. */
  lemma IndexOfAt(s: string, c: char, i: int)
    requires 0 <= i < |s| && s[i] == c
    requires forall k :: 0 <= k < i ==> s[k] != c
    ensures IndexOf(s, c) == i
  {
    assert c in s;
  }

  /** Where the parentheses of "head(refs)tail" are found. */
  lemma DecorationPosition(head: string, refs: string, tail: string)
    requires '(' !in head && ')' !in head && '(' !in refs && ')' !in refs
    ensures var line := head + ("(" + refs + ")") + tail;
      IndexOf(line, '(') == |head| && IndexOf(line, ')') == |head| + |refs| + 1
  {
    var inner := "(" + refs + ")";
    var line := head + inner + tail;
    var open, close := |head|, |head| + |refs| + 1;
    assert forall k :: 0 <= k < open ==> line[k] == head[k];
    IndexOfAt(line, '(', open);
    assert forall k :: open < k < close ==> line[k] == refs[k - open - 1] by {
      forall k | open < k < close
        ensures line[k] == refs[k - open - 1]
      {
        assert line[k] == inner[k - open];
      }
    }
    assert line[close] == inner[|refs| + 1];
    IndexOfAt(line, ')', close);
  }

  /** The parse of one decorated line. */
  lemma ParseDecoratedLine(sha: string, refs: string, msg: string)
    requires ' ' !in sha
    requires '(' !in sha && ')' !in sha && '(' !in refs && ')' !in refs
    ensures ParseLine(sha + " " + ("(" + refs + ")") + (" " + msg)) == Some(LogItem(sha, Without(msg, ' ')))
  {
    var head, inner, tail := sha + " ", "(" + refs + ")", " " + msg;
    var line := head + inner + tail;
    DecorationPosition(head, refs, tail);
    assert StripDecoration(line) == head + tail by {
      assert line[..|head|] == head;
      assert line[|head| + |refs| + 2..] == tail;
    }
    ParseLineMeaning(line);
    HashAndMessageOf(sha, tail);
    assert Without(tail, ' ') == Without(msg, ' ') by {
      assert tail[1..] == msg;
    }
  }

  /** A decorated line "sha (refs) message", the form `git log --oneline` prints for the tip of
      a branch: the decoration is dropped and the message loses its spaces. */
  lemma GitLogDecoratedLine(sha: string, refs: string, msg: string)
    requires |sha| > 0 && !IsSpace(sha[0])
    requires |msg| > 0 && !IsSpace(msg[|msg| - 1])
    requires ' ' !in sha
    requires '\n' !in sha && '\n' !in refs && '\n' !in msg
    requires '(' !in sha && ')' !in sha && '(' !in refs && ')' !in refs
    ensures GitLog(true, Some(sha + " " + ("(" + refs + ")") + (" " + msg)))
         == Ok([LogItem(sha, Without(msg, ' '))])
  {
    var line := sha + " " + ("(" + refs + ")") + (" " + msg);
    DecoratedLineChars(sha, refs, msg);
    SingleLineOutput(line);
    ParseDecoratedLine(sha, refs, msg);
    GitLogOfLine(line, LogItem(sha, Without(msg, ' ')));
  }

  lemma DecoratedLineChars(sha: string, refs: string, msg: string)
    requires |sha| > 0 && |msg| > 0
    requires '\n' !in sha && '\n' !in refs && '\n' !in msg
    ensures var line := sha + " " + ("(" + refs + ")") + (" " + msg);
      && |line| > 0 && line[0] == sha[0] && line[|line| - 1] == msg[|msg| - 1]
      && '\n' !in line
  {
  }

  /** `checkRemoteExist`: whether one line of the trimmed `git remote` output is exactly `name`.
      `output` is `None` when the command failed. */
  function CheckRemoteExist(output: Option<string>, name: string): Result<bool, GitError>
  {
    match output
    case None => Err(CommandFailed)
    case Some(out) => Ok(name in Split(TrimSpace(out), '\n'))
  }

  /** For a listing printed one remote per line, the check is exact membership. */
  lemma CheckRemoteExistListing(names: seq<string>, name: string)
    requires |names| >= 1
    requires forall k :: 0 <= k < |names| ==> '\n' !in names[k]
    requires var out := JoinWith(names, '\n'); out == "" || (!IsSpace(out[0]) && !IsSpace(out[|out| - 1]))
    ensures CheckRemoteExist(Some(JoinWith(names, '\n')), name) == Ok(name in names)
  {
    TrimSpaceNoop(JoinWith(names, '\n'));
    SplitJoin(names, '\n');
  }

  /** With no remotes at all, the empty name is reported as existing. */
  lemma CheckRemoteExistEmptyName()
    ensures CheckRemoteExist(Some(""), "") == Ok(true)
  {
    assert TrimSpace("") == "";
    assert Split("", '\n') == [""];
  }

  /** `AddRemote`: outside a work tree it fails; an existing remote is an error when
      `insertOnly`, and is updated with option "set" otherwise; a new one uses "add". */
  function AddRemote(path: string, isGit: bool, listing: Option<string>, name: string, url: string, insertOnly: bool)
    : (r: Result<GitCommand, GitError>)
    ensures !isGit ==> r == Err(NotAGit)
    ensures isGit && listing.None? ==> r == Err(CommandFailed)
    ensures r.Ok? <==> isGit && listing.Some? && !(CheckRemoteExist(listing, name).value && insertOnly)
    ensures isGit && listing.Some? ==>
      var exists_ := CheckRemoteExist(listing, name).value;
      && (exists_ && insertOnly <==> r == Err(RemoteExists))
      && (r.Ok? ==> r.value == GitCommand(path, ["remote", if exists_ then "set" else "add", name, url]))
  {
    if !isGit then Err(NotAGit)
    else match CheckRemoteExist(listing, name)
      case Err(e) => Err(e)
      case Ok(exist) =>
        if exist && insertOnly then Err(RemoteExists)
        else Ok(GitCommand(path, ["remote", if exist then "set" else "add", name, url]))
  }

  /** For a listing printed one remote per line, an existing remote is refused when
      `insertOnly` and otherwise updated with "set"; a name not in the listing is added. */
  lemma AddRemoteListing(path: string, names: seq<string>, name: string, url: string, insertOnly: bool)
    requires |names| >= 1
    requires forall k :: 0 <= k < |names| ==> '\n' !in names[k]
    requires var out := JoinWith(names, '\n'); out == "" || (!IsSpace(out[0]) && !IsSpace(out[|out| - 1]))
    ensures var r := AddRemote(path, true, Some(JoinWith(names, '\n')), name, url, insertOnly);
      && (r == Err(RemoteExists) <==> name in names && insertOnly)
      && (r.Ok? <==> !(name in names && insertOnly))
      && (r.Ok? ==> r.value == GitCommand(path, ["remote", if name in names then "set" else "add", name, url]))
  {
    CheckRemoteExistListing(names, name);
  }

  /** `Pull` runs `git pull <remote> <branch>` in the work tree, or fails outside one. */
  function Pull(path: string, isGit: bool, remote: string, branch: string): (r: Result<GitCommand, GitError>)
    ensures r.Err? <==> !isGit
    ensures r.Err? ==> r.error == NotAGit
    ensures r.Ok? ==> r.value.dir == path && r.value.args == ["pull", remote, branch]
  {
    if !isGit then Err(NotAGit) else Ok(GitCommand(path, ["pull", remote, branch]))
  }

  /** `Checkout` runs `git checkout <name>` in the work tree, or fails outside one. */
  function Checkout(path: string, isGit: bool, name: string): (r: Result<GitCommand, GitError>)
    ensures r.Err? <==> !isGit
    ensures r.Err? ==> r.error == NotAGit
    ensures r.Ok? ==> r.value.dir == path && r.value.args == ["checkout", name]
  {
    if !isGit then Err(NotAGit) else Ok(GitCommand(path, ["checkout", name]))
  }

  /** `InitGit` as the source writes it: nothing to do in a work tree; otherwise `git init` is
      run without setting the command's directory, so it runs where the server runs. */
  function InitGitAsWritten(path: string, isGit: bool): Option<GitCommand>
  {
    if isGit then None else Some(GitCommand("", ["init"]))
  }

  /** The command above initialises the server's directory, not the requested path. */
  lemma InitGitAsWrittenMissesPath(path: string)
    requires path != ""
    ensures InitGitAsWritten(path, false) == Some(GitCommand("", ["init"]))
    ensures InitGitAsWritten(path, false).value.dir != path
    ensures InitGitAsWritten(path, false) != InitGit(path, false)
  {
  }

  /** `InitGit` as intended: nothing to do in a work tree, otherwise `git init` in `path`. */
  function InitGit(path: string, isGit: bool): (r: Option<GitCommand>)
    ensures isGit <==> r.None?
    ensures r.Some? ==> r.value.dir == path && r.value.args == ["init"]
  {
    if isGit then None else Some(GitCommand(path, ["init"]))
  }
}
