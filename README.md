# Container action layer of the SSH container dashboard

This project is a Dafny model of the server-side action layer of a small web
dashboard. The dashboard provisions SSH-reachable Docker containers on one
remote host: it runs `docker` commands over SSH and reads back their output.
The layer does four things, and the model covers each one:

- **Port-mapping parser** (`parseSshPort`). It takes the `Ports` column that
  `docker ps` prints and recovers the host port mapped to the container's
  SSH port, using the fixed pattern `0.0.0.0:<digits>->22/tcp`.
- **Inventory decoding** (`getContainers`). It turns the reply to
  `docker ps -a --format "{{json .}}"` into a list of `Container` records, or
  into the error the action throws.
- **Port allocator** (`getNextAvailablePort`). It picks the lowest host port
  from 2201 upwards that no listed container uses. This is a `while` loop over
  the set of used ports, modelled as a method.
- **Create and delete decisions** (`createContainer`, `deleteContainer`).
  These are early-return procedures, modelled as methods. Each takes the
  remote replies as inputs and returns the outcome together with the commands
  it sends, in order.

Remote I/O appears only as data. `ExecResult(code, stdout, stderr)` is what
`ssh.execCommand` resolves to. A `Reply` is either `Ok` of such a result, or
`Err(message)` for an exception thrown while connecting or executing.
`JSON.parse` is a parameter `parse: string -> Option<DockerRecord>`. Its
`None` stands for a line that throws, and also for a line that parses to a
falsy value, which `.filter(Boolean)` drops.

Modules, one per concern of `src/app/actions.ts`:

| file | module | contents |
|---|---|---|
| wrappers.dfy | `Wrappers` | `Option`, `Result` |
| js_text.dfy | `JsText` | JavaScript whitespace (the one set shared by `trim` and `\s`), `trim`, `includes`, `split`, `join` |
| port_mapping.dfy | `PortMapping` | `parseSshPort`, the regular expression read declaratively, decimal text of a port |
| inventory.dfy | `Inventory` | `ExecResult`, `DockerRecord`, `Container`, the decoding pipeline, `getContainers` |
| port_allocator.dfy | `PortAllocator` | `getNextAvailablePort` and the least-free-port property |
| actions.dfy | `Actions` | `CreateActionState`, `createContainer`, `deleteContainer` |

## Model

| member | source | states |
|---|---|---|
| `PortMapping.DigitRun` | src/app/actions.ts:32 | `\d+` is greedy: the run of digits it measures holds only digits and stops at a non-digit or at the end of the string |
| `PortMapping.FindMatch` | src/app/actions.ts:32 | the index it returns is a match, and no earlier index matches; when it returns nothing, no index matches at all |
| `PortMapping.PatternAtIff` | src/app/actions.ts:32 | at a given index, the text `0.0.0.0:` + d + `->22/tcp` holds for exactly one digit string d, namely the one the matcher captures (the maximal digit run) |
| `PortMapping.ParseSshPortSpec` | src/app/actions.ts:31-34 | `parseSshPort` returns a number exactly when the string contains `0.0.0.0:`, a non-empty digit string and `->22/tcp` in a row; the number is the decimal value of the digits of the leftmost such occurrence, otherwise the result is `null` |
| `PortMapping.ParseSshPort` | src/app/actions.ts:31-34 | a port is returned only when the pattern matches somewhere in the string, and `null` only when it matches nowhere; `PortMapping.ParseSshPortSpec` states the exact value |
| `PortMapping.SshPortOf` | src/app/actions.ts:70 | the fallback to 0 after `parseSshPort(c.Ports)`: the recorded port is positive exactly when a positive port was parsed, and is then that port; `null` and a parsed 0 both give 0, as `PortMapping.NoHostMapping` shows |
| `PortMapping.ToDecimal` | src/app/actions.ts:112 | the port written into the command is non-empty, all digits and has no leading zero |
| `PortMapping.DecimalRoundTrip` | src/app/actions.ts:33 | `parseInt` of the decimal text of n gives back n |
| `PortMapping.MappingRoundTrip` | src/app/actions.ts:31-34 | the mapping `0.0.0.0:<p>->22/tcp` that `-p <p>:22` produces is parsed back as p, whatever follows it |
| `PortMapping.MappedPortExample` | src/app/actions.ts:31-34 | `0.0.0.0:2207->22/tcp` is parsed as 2207 |
| `PortMapping.NoHostMapping` | src/app/actions.ts:70 | `80/tcp` has no host mapping: `parseSshPort` gives `null` and the record's `sshPort` becomes 0 |
| `JsText.TrimStart` | src/app/actions.ts:55 | the result is the suffix of the input that starts at its first non-whitespace character; everything removed is whitespace |
| `JsText.TrimEnd` | src/app/actions.ts:55 | the result is the prefix of the input that ends at its last non-whitespace character; everything removed is whitespace |
| `JsText.TrimEmptyIff` | src/app/actions.ts:94 | `s.trim()` is empty exactly when every character of s is whitespace |
| `JsText.Split` | src/app/actions.ts:54 | `split('\n')` yields at least one piece, and no piece contains the separator |
| `JsText.JoinSplit` | src/app/actions.ts:54 | joining the pieces with the separator gives back the string: splitting loses nothing |
| `JsText.SplitJoin` | src/app/actions.ts:54 | splitting undoes joining when no piece contains the separator |
| `Inventory.ListingError` | src/app/actions.ts:40-47 | on a non-zero exit the thrown message is the fixed "Docker is not installed…" text when stderr contains `command not found`; otherwise it is stderr, or "Unknown Docker error…" when stderr is empty; it is never empty |
| `Inventory.GetContainers` | src/app/actions.ts:36-74 | a thrown exception propagates with its message; any exit code other than 0, including a missing one, throws the classified error; exit 0 lists the decoded lines of stdout |
| `Inventory.DecodeLinesAppend` | src/app/actions.ts:53-73 | decoding distributes over concatenation of lines, so containers come out in the order of their lines |
| `Inventory.DecodeLine` | src/app/actions.ts:55-72 | a single line gives one container, built from its parsed record, when it is non-blank and parses, and nothing otherwise |
| `Inventory.DecodeLinesMember` | src/app/actions.ts:53-73 | a container is listed exactly when some line of the output is non-blank, parses, and is mapped to it |
| `Inventory.DecodeLinesLength` | src/app/actions.ts:53-64 | at most one container per non-blank line, and no more non-blank lines than lines |
| `Inventory.BlankOutputIsEmpty` | src/app/actions.ts:49-55 | output made only of whitespace, the empty output among it, lists no container, so the early return for an empty stdout agrees with the pipeline |
| `PortAllocator.NextAvailablePort` | src/app/actions.ts:77-88 | the result is at least 2201, is the `sshPort` of no container with a positive port, and every port from 2201 below it is used; with no containers it is exactly 2201 |
| `PortAllocator.LeastFreeUnique` | src/app/actions.ts:82-86 | the least free port is determined by the set of used ports alone, so the listing order does not matter |
| `PortAllocator.UsedPortsOrderFree` | src/app/actions.ts:82 | two listings with the same containers, in any order and with any repetition, have the same used ports |
| `PortAllocator.UnmappedIgnored` | src/app/actions.ts:82 | a container whose `sshPort` is 0 never contributes a used port |
| `PortAllocator.NextPortAfterCreate` | src/app/actions.ts:82-86 | once a container holding the allocated port is listed, the next allocation is strictly greater |
| `PortAllocator.LeastFreeExamples` | src/app/actions.ts:79-86 | used ports {2201, 2203} give 2202, {2201, 2202, 2203} give 2204, none gives 2201 |
| `Actions.CaughtMessage` | src/app/actions.ts:123-126 | the catch block returns the exception's message, or the fixed "unexpected error" text when that message is empty; never an empty error |
| `Actions.CreateContainer` | src/app/actions.ts:91-127 | an absent or all-whitespace name gives "cannot be empty"; any other name containing whitespace gives "cannot contain spaces"; neither sends a command. A failed listing returns its error. An existing container with exactly that name gives "already exists" after one listing, with no `docker run`. `docker run -d --name <name> -p <port>:22 rastasheep/ubuntu-sshd:18.04` is sent, as the third command, exactly when the action gets that far, with the least free port of the second listing. Success comes only with exit code 0 and empty stderr; any other `Ok` reply to the run gives "Failed to create container: " + stderr; an exception from the run gives its message, or the "unexpected error" text when that message is empty |
| `Actions.TryCreate` | src/app/actions.ts:102-126 | for a name that passed both checks: a failed listing, a taken name and a failed port listing each stop before `docker run`, with the caught message or the duplicate message; otherwise the run command is sent with the least free port, and the run's reply decides between success and "Failed to create container: " + stderr; an exception from the run becomes its message, or the "unexpected error" text |
| `Actions.DeleteContainer` | src/app/actions.ts:129-152 | a missing or empty id throws "Container ID is required." and sends nothing; otherwise `docker rm -f <id>` is sent, an exception becomes "Failed to delete container.", and any reply, failed or not, ends in the refresh |
| `Actions.MissingNameIff` | src/app/actions.ts:94-96 | the empty check refuses exactly the absent name and the names made only of whitespace |
| `Actions.AcceptedNameIff` | src/app/actions.ts:94-100 | a name passes both checks exactly when it is present, non-empty and free of whitespace |
| `Actions.RunCommandWords` | src/app/actions.ts:112 | for an accepted name, the `docker run` command splits on spaces into exactly eight words, with the name as the fifth; the name cannot add or split arguments by whitespace |

## Left out

- The SSH session is not modelled: `connectSSH`, the module-level `NodeSSH` handle, reading credentials from `process.env`, and `ssh.isConnected`. These are network I/O and process-global state. Each command's outcome is an input `Reply`. A missing-configuration error or a failed connect appears as `Err(message)` on the reply of the first command that needs the connection.
- `revalidatePath("/")`, `console.error` and `import "dotenv/config"` have no modelled effect. A refresh is visible only as the `Success` and `Refreshed` outcomes.
- `JSON.parse` is left abstract, as the `parse` parameter, and the parser can express neither of these two cases. First, a kept line whose parsed value has no string `Ports` field throws a `TypeError` in `portString.match` (src/app/actions.ts:32, :70), and then the whole listing fails. Such a value can be an object without that field, a number, `true` or an array, since these pass `.filter(Boolean)`. Second, a missing `ID`, `Names`, `State` or `Image` field just becomes `undefined` in the record. The model assumes every parsed value is an object whose five fields are all strings.
- `PortMapping.DecimalValue` is exact for any number of digits. JavaScript's `parseInt` rounds once the value passes 2^53, so ports with that many digits are outside the model.
- Strings are sequences of Unicode scalar values, not UTF-16 code units. Every character that `trim`, `\s` and the port pattern look at is in the Basic Multilingual Plane, so nothing here depends on the difference.
- `createContainer` never reads its `prevState` argument, so the model has no such parameter. A form field read by `formData.get` is either a string or absent (`None`). A `File` value is not modelled.
- `Actions.CreateContainer`: the commands it returns are the ones it asks the session to run. When the run reply is `Err`, the model cannot tell whether the exception came from `connectSSH` before the command was sent or from `execCommand` itself.
- Concurrency is not modelled: async ordering, and races on the shared SSH handle. The two listings that `createContainer` makes are separate inputs, so they may differ, as they can in the source.
- `getImages`, `deleteImage` and `installDocker` are imported by the pages, but `src/app/actions.ts` as given does not define them. They are not part of this model.
- The pages and components are presentation code and are not part of this model: src/app/page.tsx, src/app/images/page.tsx, src/app/settings/page.tsx and src/components/*.tsx.
