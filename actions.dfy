/** The two form actions: `createContainer` and `deleteContainer`. Each remote
    command's reply is an input; the actions also report, in order, the
    commands they send to the remote host. */
module Actions {
  import opened Wrappers
  import opened JsText
  import opened PortMapping
  import opened Inventory
  import opened PortAllocator

  /** `CreateActionState`: `{ error }` or `{ success: true }`. */
  datatype CreateActionState = Error(message: string) | Success

  /** How `deleteContainer` ends: it returns after asking for `/` to be
      refreshed, or it throws. */
  datatype DeleteOutcome = Refreshed | Thrown(message: string)

  const DockerImage: string := "rastasheep/ubuntu-sshd:18.04"
  const EmptyNameMessage: string := "Client name cannot be empty."
  const SpacesMessage: string := "Client name cannot contain spaces."
  const CreateFailedPrefix: string := "Failed to create container: "
  const UnexpectedCreateError: string := "An unexpected error occurred while creating the container."
  const IdRequiredMessage: string := "Container ID is required."
  const DeleteFailedMessage: string := "Failed to delete container."

  function DuplicateMessage(name: string): string
  {
    "A container with the name \"" + name + "\" already exists."
  }

  function RunCommand(name: string, port: nat): string
  {
    "docker run -d --name " + name + " -p " + ToDecimal(port) + ":22 " + DockerImage
  }

  function RemoveCommand(id: string): string
  {
    "docker rm -f " + id
  }

  /** `e.message || "An unexpected error ..."`: what the catch block returns. */
  function CaughtMessage(message: string): (r: string)
    ensures r != []
    ensures message != [] ==> r == message
    ensures message == [] ==> r == UnexpectedCreateError
  {
    if message == [] then UnexpectedCreateError else message
  }

  /** `!clientName || clientName.trim().length === 0`; `None` is a missing
      form field. */
  predicate IsMissingName(name: Option<string>)
  {
    name.None? || name.value == [] || Trim(name.value) == []
  }

  /** The name passes both checks that precede any remote call. */
  predicate NameAccepted(name: Option<string>)
  {
    !IsMissingName(name) && !HasWhitespace(name.value)
  }

  /** `existingContainers.some(c => c.name === clientName)` */
  predicate NameTaken(containers: seq<Container>, name: string)
  {
    exists k :: 0 <= k < |containers| && containers[k].name == name
  }

  /** Inside the `try` block, the action gets as far as `docker run`: the
      first listing succeeds and holds no container of that name, and the
      listing made by the port allocator succeeds. */
  ghost predicate TryReachesRun(clientName: string, listReply: Reply, portReply: Reply, parse: LineParser)
  {
    && GetContainers(listReply, parse).Ok?
    && !NameTaken(GetContainers(listReply, parse).value, clientName)
    && GetContainers(portReply, parse).Ok?
  }

  /** The whole action gets as far as `docker run`. */
  ghost predicate ReachesRun(name: Option<string>, listReply: Reply, portReply: Reply, parse: LineParser)
  {
    NameAccepted(name) && TryReachesRun(name.value, listReply, portReply, parse)
  }

  /** `createContainer`. `listReply` answers the duplicate check's listing,
      `portReply` the listing made by `getNextAvailablePort`, and `runReply`
      the `docker run` command. */
  method CreateContainer(name: Option<string>, listReply: Reply, portReply: Reply, runReply: Reply, parse: LineParser)
    returns (state: CreateActionState, issued: seq<string>)
    // The name checks come first, the empty check before the whitespace check,
    // and neither contacts the remote host.
    ensures IsMissingName(name) ==> state == Error(EmptyNameMessage) && issued == []
    ensures !IsMissingName(name) && HasWhitespace(name.value) ==>
      state == Error(SpacesMessage) && issued == []
    ensures issued == [] <==> !NameAccepted(name)
    // A failed listing ends the action with the listing's error.
    ensures NameAccepted(name) && GetContainers(listReply, parse).Err? ==>
      && state == Error(CaughtMessage(GetContainers(listReply, parse).message))
      && issued == [ListCommand]
    // A taken name is refused, and no container is started.
    ensures NameAccepted(name) && GetContainers(listReply, parse).Ok?
            && NameTaken(GetContainers(listReply, parse).value, name.value) ==>
      state == Error(DuplicateMessage(name.value)) && issued == [ListCommand]
    ensures NameAccepted(name) && GetContainers(listReply, parse).Ok?
            && !NameTaken(GetContainers(listReply, parse).value, name.value)
            && GetContainers(portReply, parse).Err? ==>
      && state == Error(CaughtMessage(GetContainers(portReply, parse).message))
      && issued == [ListCommand, ListCommand]
    // `docker run` is sent exactly when the action gets that far, with the
    // least free port of the second listing.
    ensures ReachesRun(name, listReply, portReply, parse) ==>
      exists port: nat :: && IsLeastFree(port, UsedPorts(GetContainers(portReply, parse).value))
                          && issued == [ListCommand, ListCommand, RunCommand(name.value, port)]
    ensures |issued| == 3 <==> ReachesRun(name, listReply, portReply, parse)
    // The run's reply decides the outcome: any exit code other than 0, or any
    // text on stderr, is a failure.
    ensures ReachesRun(name, listReply, portReply, parse) && runReply.Err? ==>
      state == Error(CaughtMessage(runReply.message))
    ensures ReachesRun(name, listReply, portReply, parse) && runReply.Ok? ==>
      if runReply.value.code == Some(0) && runReply.value.stderr == [] then state == Success
      else state == Error(CreateFailedPrefix + runReply.value.stderr)
    ensures state.Success? ==>
      && ReachesRun(name, listReply, portReply, parse)
      && runReply.Ok? && runReply.value.code == Some(0) && runReply.value.stderr == []
  {
    if IsMissingName(name) {
      return Error(EmptyNameMessage), [];
    }
    if HasWhitespace(name.value) {
      return Error(SpacesMessage), [];
    }
    state, issued := TryCreate(name.value, listReply, portReply, runReply, parse);
  }

  /** The `try` block of `createContainer`, for a name that passed both checks:
      the duplicate check, the port allocation and `docker run`. A thrown
      exception is caught and its message returned. */
  method TryCreate(clientName: string, listReply: Reply, portReply: Reply, runReply: Reply, parse: LineParser)
    returns (state: CreateActionState, issued: seq<string>)
    ensures GetContainers(listReply, parse).Err? ==>
      && state == Error(CaughtMessage(GetContainers(listReply, parse).message))
      && issued == [ListCommand]
    ensures GetContainers(listReply, parse).Ok? && NameTaken(GetContainers(listReply, parse).value, clientName) ==>
      state == Error(DuplicateMessage(clientName)) && issued == [ListCommand]
    ensures GetContainers(listReply, parse).Ok? && !NameTaken(GetContainers(listReply, parse).value, clientName)
            && GetContainers(portReply, parse).Err? ==>
      && state == Error(CaughtMessage(GetContainers(portReply, parse).message))
      && issued == [ListCommand, ListCommand]
    ensures TryReachesRun(clientName, listReply, portReply, parse) ==>
      exists port: nat :: && IsLeastFree(port, UsedPorts(GetContainers(portReply, parse).value))
                          && issued == [ListCommand, ListCommand, RunCommand(clientName, port)]
    ensures issued != []
    ensures |issued| == 3 <==> TryReachesRun(clientName, listReply, portReply, parse)
    ensures TryReachesRun(clientName, listReply, portReply, parse) && runReply.Err? ==>
      state == Error(CaughtMessage(runReply.message))
    ensures TryReachesRun(clientName, listReply, portReply, parse) && runReply.Ok? ==>
      if runReply.value.code == Some(0) && runReply.value.stderr == [] then state == Success
      else state == Error(CreateFailedPrefix + runReply.value.stderr)
    ensures state.Success? ==>
      && TryReachesRun(clientName, listReply, portReply, parse)
      && runReply.Ok? && runReply.value.code == Some(0) && runReply.value.stderr == []
  {
    issued := [ListCommand];
    var existing := GetContainers(listReply, parse);
    if existing.Err? {
      return Error(CaughtMessage(existing.message)), issued;
    }
    if NameTaken(existing.value, clientName) {
      return Error(DuplicateMessage(clientName)), issued;
    }

    issued := [ListCommand, ListCommand];
    var listed := GetContainers(portReply, parse);
    if listed.Err? {
      return Error(CaughtMessage(listed.message)), issued;
    }
    var sshPort := NextAvailablePort(listed.value);

    issued := [ListCommand, ListCommand, RunCommand(clientName, sshPort)];
    assert IsLeastFree(sshPort, UsedPorts(listed.value));
    match runReply {
      case Err(message) =>
        state := Error(CaughtMessage(message));
      case Ok(result) =>
        if result.code != Some(0) || result.stderr != [] {
          state := Error(CreateFailedPrefix + result.stderr);
        } else {
          state := Success;
        }
    }
  }

  /** `deleteContainer`. `reply` answers the `docker rm -f` command. */
  method DeleteContainer(id: Option<string>, reply: Reply) returns (outcome: DeleteOutcome, issued: seq<string>)
    // A missing id throws before anything is sent.
    ensures id.None? || id.value == [] ==> outcome == Thrown(IdRequiredMessage) && issued == []
    ensures id.Some? && id.value != [] ==> issued == [RemoveCommand(id.value)]
    // Only an exception is fatal; a failed removal is ignored.
    ensures id.Some? && id.value != [] ==>
      outcome == (if reply.Err? then Thrown(DeleteFailedMessage) else Refreshed)
  {
    if id.None? || id.value == [] {
      return Thrown(IdRequiredMessage), [];
    }
    issued := [RemoveCommand(id.value)];
    match reply {
      case Err(_) =>
        outcome := Thrown(DeleteFailedMessage);
      case Ok(result) =>
        outcome := Refreshed;
    }
  }

  // ---------------------------------------------------------------------------
  // What the name checks let through

  /** The empty check refuses exactly the absent name and the names made only
      of whitespace (the empty name among them). */
  lemma MissingNameIff(name: Option<string>)
    ensures IsMissingName(name) <==> name.None? || AllWhitespace(name.value)
  {
    if name.Some? {
      TrimEmptyIff(name.value);
    }
  }

  /** An accepted name is non-empty and holds no whitespace at all. */
  lemma AcceptedNameIff(name: Option<string>)
    ensures NameAccepted(name) <==>
      name.Some? && name.value != [] && forall i :: 0 <= i < |name.value| ==> !IsWhitespace(name.value[i])
  {
    MissingNameIff(name);
  }

  /** Because an accepted name holds no space, the `docker run` command reads
      as exactly eight space-separated words, the fifth being the name. */
  lemma {:induction false} RunCommandWords(name: string, port: nat)
    requires NameAccepted(Some(name))
    ensures Split(RunCommand(name, port), ' ') ==
      ["docker", "run", "-d", "--name", name, "-p", ToDecimal(port) + ":22", DockerImage]
  {
    var digits := ToDecimal(port);
    var d22 := digits + ":22";
    WordsSpaceFree(name, port);
    CommandRegrouped(name, digits);
    FixedWordsSpaceFree();
    SplitEight("docker", "run", "-d", "--name", name, "-p", d22, DockerImage, ' ');
  }

  /** The `docker run` command regrouped around the spaces between its words. */
  lemma CommandRegrouped(name: string, digits: string)
    ensures "docker run -d --name " + name + " -p " + digits + ":22 " + DockerImage ==
      "docker" + [' '] + ("run" + [' '] + ("-d" + [' '] + ("--name" + [' '] + (name + [' '] +
        ("-p" + [' '] + ((digits + ":22") + [' '] + DockerImage))))))
  {
    var img := DockerImage;
    var v := digits + (":22 " + img);
    var t := name + (" -p " + v);
    assert "docker run -d --name " + name + " -p " + digits + ":22 " + img == "docker run -d --name " + t;
    PrefixWords(t);
    assert " -p " + v == [' '] + ("-p" + [' '] + v);
    assert v == (digits + ":22") + [' '] + img;
  }

  /** Neither the accepted name nor the port text holds a space. */
  lemma WordsSpaceFree(name: string, port: nat)
    requires NameAccepted(Some(name))
    ensures ' ' !in name && ' ' !in ToDecimal(port) + ":22"
  {
    AcceptedNameIff(Some(name));
    forall i | 0 <= i < |name| ensures name[i] != ' ' {
      assert !IsWhitespace(name[i]);
    }
    var d22 := ToDecimal(port) + ":22";
    forall i | 0 <= i < |d22| ensures d22[i] != ' ' {
      if i < |ToDecimal(port)| {
        assert IsDigit(ToDecimal(port)[i]);
      }
    }
  }

  lemma FixedWordsSpaceFree()
    ensures ' ' !in "docker" && ' ' !in "run" && ' ' !in "-d" && ' ' !in "--name" && ' ' !in "-p"
    ensures ' ' !in DockerImage
  {
  }

  /** Eight words without the separator, each followed by it but the last,
      split back into those eight words. */
  lemma SplitEight(a: string, b: string, c: string, d: string, e: string, f: string, g: string, h: string, sep: char)
    requires sep !in a && sep !in b && sep !in c && sep !in d
    requires sep !in e && sep !in f && sep !in g && sep !in h
    ensures Split(a + [sep] + (b + [sep] + (c + [sep] + (d + [sep] + (e + [sep] + (f + [sep] + (g + [sep] + h)))))), sep) ==
      [a, b, c, d, e, f, g, h]
  {
    var t5 := e + [sep] + (f + [sep] + (g + [sep] + h));
    SplitNoSep(h, sep);
    SplitFour(e, f, g, sep, h, [h]);
    SplitFour(a, b, c, sep, d + [sep] + t5, [d, e, f, g, h]) by {
      SplitAtSep(d, sep, t5);
    }
  }

  /** Three words without the separator, each followed by it, in front of a
      tail that splits into `rest`. */
  lemma SplitFour(a: string, b: string, c: string, sep: char, tail: string, rest: seq<string>)
    requires sep !in a && sep !in b && sep !in c
    requires Split(tail, sep) == rest
    ensures Split(a + [sep] + (b + [sep] + (c + [sep] + tail)), sep) == [a, b, c] + rest
  {
    SplitAtSep(c, sep, tail);
    SplitAtSep(b, sep, c + [sep] + tail);
    SplitAtSep(a, sep, b + [sep] + (c + [sep] + tail));
  }

  lemma PrefixWords(t: string)
    ensures "docker run -d --name " + t == "docker" + [' '] + ("run" + [' '] + ("-d" + [' '] + ("--name" + [' '] + t)))
  {
    assert "docker run -d --name " == "docker" + [' '] + "run" + [' '] + "-d" + [' '] + "--name" + [' '];
  }
}
