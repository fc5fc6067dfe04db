/** A file to be placed on an emulated node (seedemu/core/NodeFile.py):
    a path, an executable flag, and either inline content or a host path
    to copy from, never both. */
module NodeFiles {
  import opened Wrappers
  import Strings

  /** `content` and `hostPath` are Python's optional strings; `None` and
      the empty string are different values. */
  datatype NodeFile = NodeFile(path: string, content: Option<string>, hostPath: Option<string>, executable: bool)

  /** Well-formed files: content and host path are never both given. */
  predicate Valid(f: NodeFile)
  {
    !(f.content.Some? && f.hostPath.Some?)
  }

  /** The constructor: rejects a file that has both content and a host path. */
  function NewFile(path: string, content: Option<string>, hostPath: Option<string>, executable: bool): (r: Result<NodeFile>)
    ensures r.Failure? <==> content.Some? && hostPath.Some?
    ensures r.Success? ==> Valid(r.value)
    ensures r.Success? ==> r.value.path == path && r.value.content == content
                           && r.value.hostPath == hostPath && r.value.executable == executable
  {
    if content.Some? && hostPath.Some? then Failure("Content and hostPath cannot both be specified")
    else Success(NodeFile(path, content, hostPath, executable))
  }

  /** `setPath`: a new path, every other field kept. */
  function SetPath(f: NodeFile, path: string): (r: NodeFile)
    ensures r.path == path
    ensures r.content == f.content && r.hostPath == f.hostPath && r.executable == f.executable
    ensures Valid(f) ==> Valid(r)
  {
    f.(path := path)
  }

  /** `hasContent`: neither `None` nor the empty string. */
  predicate HasContent(f: NodeFile)
  {
    match f.content
    case None => false
    case Some(c) => c != ""
  }

  /** `appendContent`: refused when a host path is set; otherwise the new
      text becomes the content (from `None`) or is added at its end. */
  function AppendContent(f: NodeFile, c: string): (r: Result<NodeFile>)
    ensures r.Failure? <==> f.hostPath.Some?
    ensures r.Success? ==> r.value.path == f.path && r.value.hostPath == f.hostPath
                           && r.value.executable == f.executable
    ensures r.Success? ==> r.value.content.Some?
    ensures r.Success? ==> r.value.content.value == (if f.content.None? then c else f.content.value + c)
    ensures r.Success? ==> Valid(r.value)
  {
    if f.hostPath.Some? then Failure("Host path and content may not both be specified")
    else match f.content
      case None => Success(f.(content := Some(c)))
      case Some(prev) => Success(f.(content := Some(prev + c)))
  }

  /** Two appends are one append of the concatenation. */
  lemma AppendTwice(f: NodeFile, a: string, b: string)
    requires f.hostPath.None?
    ensures AppendContent(f, a).Success?
    ensures AppendContent(AppendContent(f, a).value, b) == AppendContent(f, a + b)
  {
    if f.content.Some? {
      assert f.content.value + a + b == f.content.value + (a + b);
    }
  }

  /** After an append the file has content exactly when it had some
      before or the appended text is non-empty. */
  lemma AppendHasContent(f: NodeFile, c: string)
    requires f.hostPath.None?
    ensures AppendContent(f, c).Success?
    ensures HasContent(AppendContent(f, c).value) <==> HasContent(f) || c != ""
  {
    if f.content.Some? && f.content.value != "" {
      assert |f.content.value + c| > 0;
    }
    if f.content.Some? && f.content.value == "" {
      assert f.content.value + c == c;
    }
  }

  /** `__eq__`: the field-by-field comparison the source writes out. */
  predicate SameFile(a: NodeFile, b: NodeFile)
  {
    && b.path == a.path
    && b.executable == a.executable
    && b.hostPath == a.hostPath
    && b.content == a.content
  }

  /** The source's equality is exactly structural equality of the value,
      hence reflexive and symmetric. */
  lemma SameFileIsEquality(a: NodeFile, b: NodeFile)
    ensures SameFile(a, b) <==> a == b
    ensures SameFile(a, a)
    ensures SameFile(a, b) ==> SameFile(b, a)
  {
  }

  /** Python's `str()` of an optional string. */
  function OptionText(o: Option<string>): string
  {
    match o
    case None => "None"
    case Some(s) => s
  }

  /** The characters `str.splitlines()` ends a line at: `\n`, `\r`, `\v`,
      `\f`, the separators 0x1c-0x1e, NEL 0x85 and U+2028/U+2029. */
  predicate LineBreak(c: char)
  {
    c == '\n' || c == '\r' || c == '\U{000B}' || c == '\U{000C}'
    || c == '\U{001C}' || c == '\U{001D}' || c == '\U{001E}' || c == '\U{0085}'
    || c == '\U{2028}' || c == '\U{2029}'
  }

  predicate NoBreak(s: string)
  {
    forall i :: 0 <= i < |s| ==> !LineBreak(s[i])
  }

  /** The index of the first line break, or `|s|` when there is none. */
  function FirstBreak(s: string): (n: nat)
    ensures n <= |s| && NoBreak(s[..n])
    ensures n < |s| ==> LineBreak(s[n])
  {
    if |s| == 0 || LineBreak(s[0]) then 0
    else
      var n := 1 + FirstBreak(s[1..]);
      assert forall i :: 1 <= i < n ==> s[..n][i] == s[1..][..n - 1][i - 1];
      n
  }

  /** `str.splitlines()`: the text cut at every line break, `\r\n`
      counting as one, with no empty line after a final break. */
  function SplitLines(s: string): (r: seq<string>)
    ensures forall i :: 0 <= i < |r| ==> NoBreak(r[i])
    ensures |s| == 0 <==> |r| == 0
    decreases |s|
  {
    if |s| == 0 then []
    else
      var n := FirstBreak(s);
      if n == |s| then [s]
      else
        var skip := if s[n] == '\r' && n + 1 < |s| && s[n + 1] == '\n' then 2 else 1;
        [s[..n]] + SplitLines(s[n + skip..])
  }

  /** Splitting `\n`-terminated lines that hold no break gives the lines
      back. */
  lemma {:induction false} SplitLinesTerminated(lines: seq<string>)
    requires forall i :: 0 <= i < |lines| ==> NoBreak(lines[i])
    ensures SplitLines(Strings.Terminated(lines)) == lines
  {
    if |lines| > 0 {
      var l := lines[0];
      var rest := Strings.Terminated(lines[1..]);
      var s := Strings.Terminated(lines);
      assert s == l + "\n" + rest;
      assert s[|l|] == '\n';
      assert FirstBreak(s) == |l| by {
        FirstBreakAt(s, |l|);
      }
      assert s[..|l|] == l && s[|l| + 1..] == rest;
      SplitLinesTerminated(lines[1..]);
    }
  }

  /** A break at `n` with none before it is the first break. */
  lemma {:induction false} FirstBreakAt(s: string, n: nat)
    requires n < |s| && LineBreak(s[n]) && NoBreak(s[..n])
    ensures FirstBreak(s) == n
  {
    if n > 0 {
      assert s[0] == s[..n][0];
      assert s[1..][..n - 1] == s[..n][1..];
      FirstBreakAt(s[1..], n - 1);
    }
  }

  function Spaces(n: nat): string
  {
    seq(n, _ => ' ')
  }

  function QuotedLines(lines: seq<string>, indent: nat): string
  {
    if |lines| == 0 then "" else Spaces(indent) + "> " + lines[0] + "\n" + QuotedLines(lines[1..], indent)
  }

  /** The first line of `print`: the path and `str()` of the host path. */
  function Header(f: NodeFile, indent: nat): string
  {
    Spaces(indent) + f.path + " (hostPath=" + OptionText(f.hostPath) + "):\n"
  }

  /** The text `print` quotes: the content, or, when there is none and the
      host path is non-empty, what reading the host file gives. */
  function Shown(f: NodeFile, read: string -> string): Option<string>
  {
    if f.content.None? && f.hostPath.Some? && f.hostPath.value != "" then Some(read(f.hostPath.value))
    else f.content
  }

  /** `print(indent)` (also `str()` of a file, through `Printable`): a
      header line, then each line of the shown text quoted with `> `.
      Reading the host file is the parameter `read`. */
  function Print(f: NodeFile, indent: nat, read: string -> string): (r: string)
    ensures |Header(f, indent)| <= |r| && r[..|Header(f, indent)|] == Header(f, indent)
    ensures Shown(f, read).None? || Shown(f, read).value == "" ==> r == Header(f, indent)
  {
    var shown := Shown(f, read);
    var h := Header(f, indent);
    var r := h + (if shown.Some? && shown.value != "" then QuotedLines(SplitLines(shown.value), indent + 4) else "");
    assert r[..|h|] == h;
    r
  }

  /** A file whose content is `\n`-terminated lines prints those lines,
      quoted, four columns further in. */
  lemma PrintInline(f: NodeFile, indent: nat, read: string -> string, lines: seq<string>)
    requires |lines| > 0 && forall i :: 0 <= i < |lines| ==> NoBreak(lines[i])
    requires f.content == Some(Strings.Terminated(lines))
    ensures Print(f, indent, read) == Header(f, indent) + QuotedLines(lines, indent + 4)
  {
    SplitLinesTerminated(lines);
  }

  /** A host-path file prints the lines of the host file, quoted. */
  lemma PrintHostFile(f: NodeFile, indent: nat, read: string -> string, lines: seq<string>)
    requires |lines| > 0 && forall i :: 0 <= i < |lines| ==> NoBreak(lines[i])
    requires f.content.None? && f.hostPath.Some? && f.hostPath.value != ""
    requires read(f.hostPath.value) == Strings.Terminated(lines)
    ensures Print(f, indent, read) == Header(f, indent) + QuotedLines(lines, indent + 4)
  {
    SplitLinesTerminated(lines);
  }
}
