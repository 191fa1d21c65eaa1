/** `getContainers`: turning the reply to `docker ps -a --format "{{json .}}"`
    into the list of containers, or into the error the action throws. */
module Inventory {
  import opened Wrappers
  import opened JsText
  import opened PortMapping

  /** What `ssh.execCommand` resolves to. `code` is `None` when the remote
      command ended without an exit status. */
  datatype ExecResult = ExecResult(code: Option<int>, stdout: string, stderr: string)

  /** The outcome of connecting and running one remote command: its result,
      or the message of the exception that was thrown on the way. */
  type Reply = Result<ExecResult>

  /** One JSON object printed by `docker ps`; the fields are its `ID`, `Names`,
      `Ports`, `State` and `Image` keys. */
  datatype DockerRecord = DockerRecord(id: string, names: string, ports: string, state: string, image: string)

  /** The `Container` record handed to the pages. */
  datatype Container = Container(id: string, name: string, ports: string, sshPort: nat, status: string, image: string)

  /** `JSON.parse` followed by `.filter(Boolean)`, left abstract: `None` for a
      line that throws or parses to a falsy value. */
  type LineParser = string -> Option<DockerRecord>

  const ListCommand: string := "docker ps -a --format \"{{json .}}\""
  const CommandNotFound: string := "command not found"
  const DockerMissingMessage: string := "Docker is not installed or accessible on the remote server."
  const UnknownDockerError: string := "Unknown Docker error on the remote server."

  /** The message thrown for a failed listing, from the command's stderr. */
  function ListingError(stderr: string): (msg: string)
    ensures Contains(stderr, CommandNotFound) ==> msg == DockerMissingMessage
    ensures !Contains(stderr, CommandNotFound) && stderr != [] ==> msg == stderr
    ensures stderr == [] ==> msg == UnknownDockerError
    ensures msg != []
  {
    var text := if stderr == [] then UnknownDockerError else stderr;
    assert !Contains(UnknownDockerError, CommandNotFound) by {
      var u := UnknownDockerError;
      forall i: nat | i <= |u| ensures !OccursAt(u, CommandNotFound, i) {
        if i + |CommandNotFound| <= |u| {
          assert u[i + 12] != 'f';
          assert u[i..i + |CommandNotFound|][12] == u[i + 12];
        }
      }
    }
    if Contains(text, CommandNotFound) then DockerMissingMessage else text
  }

  /** A line that `line.trim() !== ''` drops. */
  predicate IsBlank(line: string)
  {
    Trim(line) == []
  }

  /** `.filter(line => line.trim() !== '')` */
  function NonBlank(lines: seq<string>): (r: seq<string>)
    ensures |r| <= |lines|
  {
    if lines == [] then []
    else (if IsBlank(lines[0]) then [] else [lines[0]]) + NonBlank(lines[1..])
  }

  /** `.map(line => JSON.parse(line))` */
  function ParseEach(lines: seq<string>, parse: LineParser): (r: seq<Option<DockerRecord>>)
    ensures |r| == |lines|
  {
    if lines == [] then [] else [parse(lines[0])] + ParseEach(lines[1..], parse)
  }

  /** `.filter(Boolean)` */
  function Parsed(opts: seq<Option<DockerRecord>>): (r: seq<DockerRecord>)
    ensures |r| <= |opts|
  {
    if opts == [] then []
    else (match opts[0] case None => [] case Some(rec) => [rec]) + Parsed(opts[1..])
  }

  /** The `Container` built from one record; its SSH port is read from `Ports`. */
  function ToContainer(rec: DockerRecord): Container
  {
    Container(rec.id, rec.names, rec.ports, SshPortOf(rec.ports), rec.state, rec.image)
  }

  /** `.map((c): Container => ...)` */
  function ToContainers(recs: seq<DockerRecord>): (r: seq<Container>)
    ensures |r| == |recs|
  {
    if recs == [] then [] else [ToContainer(recs[0])] + ToContainers(recs[1..])
  }

  /** The whole pipeline over the lines of the output. */
  function DecodeLines(lines: seq<string>, parse: LineParser): seq<Container>
  {
    ToContainers(Parsed(ParseEach(NonBlank(lines), parse)))
  }

  /** `getContainers`, once the listing command has been run and replied. */
  function GetContainers(reply: Reply, parse: LineParser): (r: Result<seq<Container>>)
    ensures reply.Err? ==> r == Err(reply.message)
    ensures reply.Ok? && reply.value.code != Some(0) ==>
      r == Err(ListingError(reply.value.stderr))
    ensures reply.Ok? && reply.value.code == Some(0) ==>
      r == Ok(DecodeLines(Split(reply.value.stdout, '\n'), parse))
  {
    match reply
    case Err(message) => Err(message)
    case Ok(result) =>
      if result.code != Some(0) then Err(ListingError(result.stderr))
      else if result.stdout == [] then Ok([])
      else Ok(DecodeLines(Split(result.stdout, '\n'), parse))
  }

  // ---------------------------------------------------------------------------
  // What the pipeline keeps, and in which order

  /** `line` is kept and becomes container `c`. */
  ghost predicate Decodes(line: string, parse: LineParser, c: Container)
  {
    !IsBlank(line) && parse(line).Some? && c == ToContainer(parse(line).value)
  }

  lemma {:induction false} NonBlankAppend(a: seq<string>, b: seq<string>)
    ensures NonBlank(a + b) == NonBlank(a) + NonBlank(b)
  {
    if a != [] {
      var head := if IsBlank(a[0]) then [] else [a[0]];
      assert (a + b)[0] == a[0];
      assert (a + b)[1..] == a[1..] + b;
      assert NonBlank(a + b) == head + NonBlank(a[1..] + b);
      NonBlankAppend(a[1..], b);
      assert NonBlank(a) == head + NonBlank(a[1..]);
    } else {
      assert a + b == b;
    }
  }

  lemma {:induction false} ParseEachAppend(a: seq<string>, b: seq<string>, parse: LineParser)
    ensures ParseEach(a + b, parse) == ParseEach(a, parse) + ParseEach(b, parse)
  {
    if a != [] {
      assert (a + b)[1..] == a[1..] + b;
      ParseEachAppend(a[1..], b, parse);
    } else {
      assert a + b == b;
    }
  }

  lemma {:induction false} ParsedAppend(a: seq<Option<DockerRecord>>, b: seq<Option<DockerRecord>>)
    ensures Parsed(a + b) == Parsed(a) + Parsed(b)
  {
    if a != [] {
      assert (a + b)[1..] == a[1..] + b;
      ParsedAppend(a[1..], b);
    } else {
      assert a + b == b;
    }
  }

  lemma {:induction false} ToContainersAppend(a: seq<DockerRecord>, b: seq<DockerRecord>)
    ensures ToContainers(a + b) == ToContainers(a) + ToContainers(b)
  {
    if a != [] {
      assert (a + b)[1..] == a[1..] + b;
      ToContainersAppend(a[1..], b);
    } else {
      assert a + b == b;
    }
  }

  /** Decoding distributes over concatenation of lines: the containers come
      out in the order of the lines they were printed on. */
  lemma DecodeLinesAppend(a: seq<string>, b: seq<string>, parse: LineParser)
    ensures DecodeLines(a + b, parse) == DecodeLines(a, parse) + DecodeLines(b, parse)
  {
    NonBlankAppend(a, b);
    ParseEachAppend(NonBlank(a), NonBlank(b), parse);
    ParsedAppend(ParseEach(NonBlank(a), parse), ParseEach(NonBlank(b), parse));
    ToContainersAppend(Parsed(ParseEach(NonBlank(a), parse)), Parsed(ParseEach(NonBlank(b), parse)));
  }

  /** One line gives one container when it is non-blank and parses, and
      nothing otherwise. */
  lemma DecodeLine(line: string, parse: LineParser)
    ensures IsBlank(line) || parse(line).None? ==> DecodeLines([line], parse) == []
    ensures !IsBlank(line) && parse(line).Some? ==>
      DecodeLines([line], parse) == [ToContainer(parse(line).value)]
  {
    assert [line][1..] == [];
  }

  lemma DecodeLineMember(line: string, parse: LineParser, c: Container)
    ensures c in DecodeLines([line], parse) <==> Decodes(line, parse, c)
  {
    DecodeLine(line, parse);
  }

  /** A container is listed exactly when some line of the output decodes to it. */
  lemma {:induction false} DecodeLinesMember(lines: seq<string>, parse: LineParser, c: Container)
    ensures c in DecodeLines(lines, parse) <==>
      exists k :: 0 <= k < |lines| && Decodes(lines[k], parse, c)
  {
    if lines != [] {
      var head, tail := lines[0], lines[1..];
      assert lines == [head] + tail;
      DecodeLinesAppend([head], tail, parse);
      var all, first, rest := DecodeLines(lines, parse), DecodeLines([head], parse), DecodeLines(tail, parse);
      assert all == first + rest;
      DecodeLineMember(head, parse, c);
      DecodeLinesMember(tail, parse, c);
      if c in rest {
        var k :| 0 <= k < |tail| && Decodes(tail[k], parse, c);
        assert lines[k + 1] == tail[k];
      }
      if exists k :: 0 <= k < |lines| && Decodes(lines[k], parse, c) {
        var k :| 0 <= k < |lines| && Decodes(lines[k], parse, c);
        if k > 0 {
          assert tail[k - 1] == lines[k];
        }
      }
    }
  }

  /** At most one container per non-blank line. */
  lemma DecodeLinesLength(lines: seq<string>, parse: LineParser)
    ensures |DecodeLines(lines, parse)| <= |NonBlank(lines)| <= |lines|
  {
  }

  /** Empty output, and output made only of blank lines, list no container:
      the early return for an empty stdout agrees with the pipeline. */
  lemma {:induction false} BlankOutputIsEmpty(stdout: string, parse: LineParser)
    requires AllWhitespace(stdout)
    ensures DecodeLines(Split(stdout, '\n'), parse) == []
  {
    var lines := Split(stdout, '\n');
    JoinSplit(stdout, '\n');
    AllWhitespaceLines(lines, '\n');
    NonBlankOfBlanks(lines);
  }

  /** Every piece of a joined all-whitespace string is all whitespace. */
  lemma {:induction false} AllWhitespaceLines(lines: seq<string>, sep: char)
    requires AllWhitespace(Join(lines, sep))
    ensures forall k :: 0 <= k < |lines| ==> IsBlank(lines[k])
  {
    if |lines| == 1 {
      TrimEmptyIff(lines[0]);
    } else if |lines| > 1 {
      var tail := Join(lines[1..], sep);
      assert Join(lines, sep) == lines[0] + [sep] + tail;
      WhitespaceHalves(lines[0] + [sep], tail);
      WhitespaceHalves(lines[0], [sep]);
      TrimEmptyIff(lines[0]);
      AllWhitespaceLines(lines[1..], sep);
      forall k | 1 <= k < |lines| ensures IsBlank(lines[k]) {
        assert lines[k] == lines[1..][k - 1];
      }
    }
  }

  lemma WhitespaceHalves(a: string, b: string)
    requires AllWhitespace(a + b)
    ensures AllWhitespace(a) && AllWhitespace(b)
  {
    forall i | 0 <= i < |a| ensures IsWhitespace(a[i]) {
      assert a[i] == (a + b)[i];
    }
    forall i | 0 <= i < |b| ensures IsWhitespace(b[i]) {
      assert b[i] == (a + b)[|a| + i];
    }
  }

  lemma {:induction false} NonBlankOfBlanks(lines: seq<string>)
    requires forall k :: 0 <= k < |lines| ==> IsBlank(lines[k])
    ensures NonBlank(lines) == []
  {
    if lines != [] {
      NonBlankOfBlanks(lines[1..]);
    }
  }
}
