/** The deterministic part of `IdentifyPanic` (helper.go): choose the frame a
    panic came from, describe it, turn it into a link to the repository, and
    build the message and the alert. The stack, the environment variables and
    the formatted panic value are inputs. */
module PanicSource {
  import opened StringOps
  import opened Optional

  /** What `runtime.FuncForPC` resolves for one program counter. */
  datatype Frame = Frame(name: string, file: string, line: int)

  /** The alert handed to `SendNotification`. */
  datatype Alert = Alert(title: string, body: string, context: string, err: string)

  /** The values `name`, `file` and `line` start with before the scan. */
  const NoFrame: Frame := Frame("", "", 0)
  const RuntimePrefix: string := "runtime."

  /** A frame inside Go's runtime. */
  predicate IsRuntime(f: Frame) {
    HasPrefix(f.name, RuntimePrefix)
  }

  /** A resolved frame outside the runtime. */
  predicate IsAppFrame(o: Option<Frame>) {
    o.Some? && !IsRuntime(o.value)
  }

  /** The frame the scan stops on, given the last frame resolved before
      `frames`: unresolved frames are skipped, every resolved frame overwrites
      the current one, and the first frame outside the runtime ends the scan. */
  function OriginAfter(frames: seq<Option<Frame>>, last: Frame): Frame
    decreases |frames|
  {
    if frames == [] then last
    else match frames[0]
      case None => OriginAfter(frames[1..], last)
      case Some(f) => if IsRuntime(f) then OriginAfter(frames[1..], f) else f
  }

  /** The frame IdentifyPanic reports. */
  function Origin(frames: seq<Option<Frame>>): Frame {
    OriginAfter(frames, NoFrame)
  }

  /** The frame-scanning loop of IdentifyPanic over the resolved call stack. */
  method LocateOrigin(frames: seq<Option<Frame>>) returns (name: string, file: string, line: int)
    ensures Frame(name, file, line) == Origin(frames)
  {
    name, file, line := "", "", 0;
    var i := 0;
    while i < |frames|
      invariant 0 <= i <= |frames|
      invariant Origin(frames) == OriginAfter(frames[i..], Frame(name, file, line))
    {
      assert frames[i..][1..] == frames[i + 1..];
      if frames[i].None? {
        i := i + 1;
        continue;
      }
      var fn := frames[i].value;
      file, line := fn.file, fn.line;
      name := fn.name;
      if !HasPrefix(name, RuntimePrefix) {
        break;
      }
      i := i + 1;
    }
  }

  /** The reported frame is the first resolved frame outside the runtime. */
  lemma {:induction false} OriginIsFirstAppFrame(frames: seq<Option<Frame>>, last: Frame, i: nat)
    requires i < |frames| && IsAppFrame(frames[i])
    requires forall j :: 0 <= j < i ==> !IsAppFrame(frames[j])
    ensures OriginAfter(frames, last) == frames[i].value
    decreases i
  {
    if i > 0 {
      var next := if frames[0].Some? then frames[0].value else last;
      OriginIsFirstAppFrame(frames[1..], next, i - 1);
    }
  }

  /** When every resolved frame is in the runtime, the reported frame is the last
      resolved one, or the starting frame if none resolved. */
  lemma {:induction false} OriginFallsBackToLastFrame(frames: seq<Option<Frame>>, last: Frame)
    requires forall j :: 0 <= j < |frames| ==> !IsAppFrame(frames[j])
    ensures (forall j :: 0 <= j < |frames| ==> frames[j].None?) ==> OriginAfter(frames, last) == last
    ensures forall i :: 0 <= i < |frames| && frames[i].Some?
                        && (forall j :: i < j < |frames| ==> frames[j].None?)
                        ==> OriginAfter(frames, last) == frames[i].value
    decreases |frames|
  {
    if frames != [] {
      var next := if frames[0].Some? then frames[0].value else last;
      OriginFallsBackToLastFrame(frames[1..], next);
      assert forall j :: 1 <= j < |frames| ==> frames[1..][j - 1] == frames[j];
    }
  }

  /** The reported frame is in the runtime only when no resolved frame lies
      outside it. */
  lemma {:induction false} OriginOutsideRuntime(frames: seq<Option<Frame>>, last: Frame)
    requires exists i :: 0 <= i < |frames| && IsAppFrame(frames[i])
    ensures !IsRuntime(OriginAfter(frames, last))
    decreases |frames|
  {
    if !IsAppFrame(frames[0]) {
      var i :| 0 <= i < |frames| && IsAppFrame(frames[i]);
      assert IsAppFrame(frames[1..][i - 1]);
      var next := if frames[0].Some? then frames[0].value else last;
      OriginOutsideRuntime(frames[1..], next);
    }
  }

  // ---------------------------------------------------------------------
  // The reported source location and the repository link.

  /** `source`: `name:line`, else `file:line`, else the raw program counters
      (`pc:%x`), which are an input here. */
  function SourceOf(f: Frame, pcDump: string): string {
    if f.name != "" then f.name + ":" + IntToString(f.line)
    else if f.file != "" then f.file + ":" + IntToString(f.line)
    else pcDump
  }

  /** The branch linked to: production deployments link to `master`. */
  function Branch(serverEnv: string): (branch: string)
    ensures serverEnv == "production" ==> branch == "master"
    ensures serverEnv != "production" ==> branch == serverEnv
  {
    if serverEnv == "production" then "master" else serverEnv
  }

  /** The part of the file path after the project signature, when the signature
      occurs in the path at an index greater than zero. */
  function FileSuffix(file: string, sign: string): string {
    var i := IndexOf(file, sign);
    if i > 0 then file[i + |sign|..] else ""
  }

  /** The file suffix is what follows the first occurrence of the signature,
      when that occurrence is at an index above zero; otherwise it is empty. */
  lemma FileSuffixShape(file: string, sign: string)
    ensures var i := IndexOf(file, sign);
      && (i > 0 ==> file == file[..i] + sign + FileSuffix(file, sign)
                    && forall j :: 0 <= j < i ==> !OccursAt(file, sign, j))
      && (i <= 0 ==> FileSuffix(file, sign) == "")
  {
    var i := IndexOf(file, sign);
    IndexOfFirst(file, sign);
    if i > 0 {
      assert file[i..i + |sign|] == sign;
      assert file == file[..i] + file[i..i + |sign|] + file[i + |sign|..];
    }
  }

  /** The repository URL: the repository, the branch, the path inside the
      repository and the line anchor. */
  function RepoUrl(repo: string, branch: string, suffix: string, line: int): (url: string)
    ensures |url| > 0
  {
    "https://" + repo + "/blob/" + branch + suffix + "#L" + IntToString(line)
  }

  /** `githubLink` before its fallback: a repository URL when the signature
      occurs in the function name at an index greater than zero, else the file
      suffix alone. */
  function RepositoryLinkOf(name: string, file: string, line: int, serverEnv: string, sign: string): string {
    var suffix := FileSuffix(file, sign);
    var i := IndexOf(name, sign);
    if i > 0 then RepoUrl(name[..i + |sign|], Branch(serverEnv), suffix, line) else suffix
  }

  /** `githubLink` as IdentifyPanic leaves it: the repository link, or the plain
      source when that is empty. */
  function PanicLink(f: Frame, serverEnv: string, sign: string, source: string): string {
    var link := RepositoryLinkOf(f.name, f.file, f.line, serverEnv, sign);
    if link == "" then source else link
  }

  /** The repository named in the URL is the function name up to the end of
      the first occurrence of the signature. */
  lemma RepositoryOfName(name: string, sign: string)
    requires IndexOf(name, sign) > 0
    ensures var repo := name[..IndexOf(name, sign) + |sign|];
      HasPrefix(name, repo) && repo[|repo| - |sign|..] == sign
  {
    var i := IndexOf(name, sign);
    IndexOfFirst(name, sign);
    assert name[..i + |sign|][i..] == name[i..i + |sign|];
  }

  /** When the signature occurs in the function name at an index above zero,
      the fallback to the source is never taken: the link is the URL of the
      repository (RepositoryOfName), on the branch (with production read as
      master), at the file suffix and the line anchor. */
  lemma RepositoryLink(f: Frame, serverEnv: string, sign: string, source: string)
    requires IndexOf(f.name, sign) > 0
    ensures var repo := f.name[..IndexOf(f.name, sign) + |sign|];
      var link := PanicLink(f, serverEnv, sign, source);
      && link == RepoUrl(repo, Branch(serverEnv), FileSuffix(f.file, sign), f.line)
      && HasPrefix(link, "https://" + repo + "/blob/" + Branch(serverEnv))
  {
    var repo := f.name[..IndexOf(f.name, sign) + |sign|];
    var head := "https://" + repo + "/blob/" + Branch(serverEnv);
    var url := RepoUrl(repo, Branch(serverEnv), FileSuffix(f.file, sign), f.line);
    assert url == head + (FileSuffix(f.file, sign) + "#L" + IntToString(f.line));
    assert url[..|head|] == head;
  }

  /** An empty signature (PROJECT_NAME unset) is found at index 0, which is not
      greater than zero, so the plain source is reported. */
  lemma EmptySignatureGivesSource(f: Frame, serverEnv: string, source: string)
    ensures PanicLink(f, serverEnv, "", source) == source
  {
    IndexOfEmpty(f.file);
    IndexOfEmpty(f.name);
  }

  /** A signature found in neither the file nor the function name gives the
      plain source. */
  lemma AbsentSignatureGivesSource(f: Frame, serverEnv: string, sign: string, source: string)
    requires !Contains(f.file, sign) && !Contains(f.name, sign)
    ensures PanicLink(f, serverEnv, sign, source) == source
  {
    ContainsIndexOf(f.file, sign);
    ContainsIndexOf(f.name, sign);
  }

  /** Only the link depends on the deployment: "production" and "master" give the
      same link. */
  lemma ProductionLinksAsMaster(f: Frame, sign: string, source: string)
    ensures PanicLink(f, "production", sign, source) == PanicLink(f, "master", sign, source)
  {
  }

  /** The reported source of a named frame is `name:line`, which reads back to
      the name and the line number. */
  lemma SourceOfNamedFrame(f: Frame, pcDump: string)
    requires f.name != "" && f.line >= 0
    ensures var s := SourceOf(f, pcDump);
      && HasPrefix(s, f.name + ":")
      && (forall k :: |f.name| + 1 <= k < |s| ==> IsDigit(s[k]))
      && DecimalValue(s[|f.name| + 1..]) == f.line
  {
    var s := SourceOf(f, pcDump);
    assert s[|f.name| + 1..] == NatToString(f.line);
    NatToStringRoundTrip(f.line);
  }

  // ---------------------------------------------------------------------

  /** The `switch` of IdentifyPanic that describes the located frame. */
  method FormatSource(name: string, file: string, line: int, pcDump: string) returns (source: string)
    ensures source == SourceOf(Frame(name, file, line), pcDump)
  {
    if name != "" {
      source := name + ":" + IntToString(line);
    } else if file != "" {
      source := file + ":" + IntToString(line);
    } else {
      source := pcDump;
    }
  }

  /** The branch IdentifyPanic links to, read from SERVER_ENV. */
  method DeployBranch(serverEnv: string) returns (branch: string)
    ensures branch == Branch(serverEnv)
  {
    branch := serverEnv;
    if branch == "production" {
      branch := "master";
    }
  }

  /** `githubLink` after the file path is searched for the signature. */
  method FileLink(file: string, sign: string) returns (githubLink: string)
    ensures githubLink == FileSuffix(file, sign)
  {
    githubLink := "";
    var i := IndexOf(file, sign);
    if i > 0 {
      githubLink := file[i + |sign|..];
    }
  }

  /** The part of IdentifyPanic that reads the branch and the signature (from
      PROJECT_NAME) and builds `githubLink` before its fallback to the source. */
  method BuildLink(name: string, file: string, line: int, serverEnv: string, projectName: string)
    returns (githubLink: string)
    ensures githubLink == RepositoryLinkOf(name, file, line, serverEnv, projectName)
  {
    var branch := DeployBranch(serverEnv);
    var sign := projectName;
    githubLink := FileLink(file, sign);
    var i := IndexOf(name, sign);
    if i > 0 {
      githubLink := "https://" + name[..i + |sign|] + "/blob/" + branch + githubLink + "#L" + IntToString(line);
    }
  }

  /** `IdentifyPanic(ctx, rec)`: locate the origin, build the link from
      SERVER_ENV and PROJECT_NAME, produce the alert for the notification sink
      and return `panic: <rec>`. `rec` is the panic value as `%v` prints it. */
  method IdentifyPanic(ctx: string, rec: string, frames: seq<Option<Frame>>, pcDump: string,
                       serverEnv: string, projectName: string)
    returns (message: string, alert: Alert)
    ensures message == "panic: " + rec
    ensures alert.title == "Panic Detected" && alert.context == ctx && alert.err == rec
    ensures alert.body == "*Panic source*: `" +
      PanicLink(Origin(frames), serverEnv, projectName, SourceOf(Origin(frames), pcDump)) + "`"
  {
    var name, file, line := LocateOrigin(frames);
    var source := FormatSource(name, file, line, pcDump);
    var githubLink := BuildLink(name, file, line, serverEnv, projectName);
    if githubLink == "" {
      githubLink := source;
    }
    alert := Alert("Panic Detected", "*Panic source*: `" + githubLink + "`", ctx, rec);
    message := "panic: " + rec;
  }
}
