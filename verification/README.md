# FreeDNS dynamic-DNS client, modelled in Dafny

This project models the logic of `freedns_ddns_client.py`, a small client that
keeps a FreeDNS record pointing at the host's public IP. One run fetches the
public IP and reads the last known IP from the cache file `my_public_ip.txt`.
If the two differ, it optionally mails the operator, asks FreeDNS for the
account's dynamic records, picks one, calls that record's update URL, and then
overwrites the cache.

The model is pure and functional. The network, the mail service and SHA-1 are
inputs. Every outward action of a run is recorded in order as an `Effect`, and
a run returns the actions, the cache file afterwards and how it ended.

- `results.dfy`, module `Results`: `Option` and `Result`.
- `text.dfy`, module `Text`: the Python string operations the client relies on,
  over `seq<char>`. These are `str.split` with a one-character separator (`Split`,
  with `Join` as its inverse), `s.split(sep)[-1]` (`LastField`), the substring
  test `in` (`Contains`) and `readline` (`ReadLine`).
- `freedns.dfy`, module `FreeDns`: the string that is hashed, the lookup URL,
  record selection and update-URL extraction (`update_public_ip_freedns`).
- `client.dfy`, module `Client`: the cache file as one cell, the notifier, the
  update step and the whole run (`run`).

The model follows the code, including where its behaviour is easy to misread:

- Record selection keeps the **last** candidate that mentions `domain`, because
  the loop overwrites its variable on every match.
- A failure to send the mail is **fatal** (`sys.exit(1)`), so the update and the
  cache write do not happen.
- Missing credentials are detected only inside the update step. That step runs
  after the public-IP request, and only when the IP changed. With an unchanged
  IP, missing credentials go unnoticed and the run ends normally.
- The "no domains found" branch cannot be reached, because splitting never
  yields zero pieces. The model keeps the branch and proves it is never taken.
- Only an unset `recipients` variable skips the mail. An empty one is passed on
  to the mail service.

## Model

| member | source | states |
|---|---|---|
| Text.Split | freedns_ddns_client.py:112 | splitting yields one more piece than there are separators (so never zero pieces), and no piece contains the separator |
| Text.SplitJoinRoundTrip | freedns_ddns_client.py:112 | joining the pieces with the separator gives back the split string |
| Text.JoinSplitRoundTrip | freedns_ddns_client.py:112 | separator-free pieces, joined, split back into exactly those pieces |
| Text.SplitSingleIffNoSeparator | freedns_ddns_client.py:112-114 | there is exactly one piece iff the separator is absent, and that piece is the whole string |
| Text.SplitAtFirstSeparator | freedns_ddns_client.py:105 | a separator-free prefix followed by the separator becomes the first piece, and the remainder splits on its own |
| Text.LastPieceFollowsLastSeparator | freedns_ddns_client.py:145 | the last piece is a suffix with no separator, and the character before it (if any) is the separator |
| Text.FollowsLastSeparatorUnique | freedns_ddns_client.py:145 | only one string is the text after the last separator |
| Text.LastField | freedns_ddns_client.py:145 | `split(sep)[-1]` is the text after the last separator, or the whole string when there is none |
| Text.Contains | freedns_ddns_client.py:125 | a match needs the searched text to be no longer than the line, and a line that starts with it matches (ContainsIffOccurs gives the full meaning) |
| Text.ContainsIffOccurs | freedns_ddns_client.py:125 | the substring test holds iff the domain occurs at some offset of the candidate |
| Text.ContainsEmpty | freedns_ddns_client.py:125 | "" occurs in every string, and only "" occurs in "" |
| Text.ReadLine | freedns_ddns_client.py:48 | readline returns a prefix ending at the first newline (included), or everything when there is no newline |
| Text.ReadLineWholeIff | freedns_ddns_client.py:48 | readline returns the whole contents iff no newline occurs before the last character |
| FreeDns.PreHashToken | freedns_ddns_client.py:96-105 | a missing username or password fails before any token exists; otherwise the token is username, bar, password |
| FreeDns.TokenSplitsIntoCredentials | freedns_ddns_client.py:105 | with no bar in the username, the token's first field is the username and the remaining fields rejoin to the password |
| FreeDns.LookupUrl | freedns_ddns_client.py:108-110 | the lookup URL is exactly the getdyndns v2 endpoint followed by the digest, with nothing between them |
| FreeDns.Candidates | freedns_ddns_client.py:112 | the provider answer always yields at least one candidate record |
| FreeDns.SeveralCandidatesIffNewline | freedns_ddns_client.py:112-114 | the candidate count is the newline count plus one, so there are several candidates iff the answer has a newline |
| FreeDns.ScanCandidates | freedns_ddns_client.py:124-126 | the loop ends holding either its start value or a candidate that mentions the domain, and the latter whenever some candidate does (ScanFindsLastMatch says which one) |
| FreeDns.ScanFindsLastMatch | freedns_ddns_client.py:124-126 | the overwriting loop ends with the last candidate mentioning the domain, or with its start value when none does |
| FreeDns.SelectRecord | freedns_ddns_client.py:112-143 | one line: the whole answer is selected, whatever the domain. Several lines: the domain is required, the last matching line is selected, and no match or an empty match fails. The zero-records error never occurs |
| FreeDns.TrailingNewlineNeedsDomain | freedns_ddns_client.py:112-137 | one record plus a trailing newline makes two candidates: without a domain selection fails; with a non-empty domain in the record, the record is selected |
| FreeDns.NonEmptyDomainFailsIffUnmentioned | freedns_ddns_client.py:124-135 | with several lines and a non-empty domain, selection fails iff no line mentions it; otherwise the selection is a candidate that mentions it |
| FreeDns.EmptyDomainPicksLastCandidate | freedns_ddns_client.py:124-135 | an empty domain matches every line, so the last line is picked, and an answer ending in a newline fails as "not found" |
| FreeDns.UpdateUrl | freedns_ddns_client.py:145 | the update URL is the bar-free text after the record's last bar, or the whole record when it has no bar |
| FreeDns.SingleRecordUpdatesItsUrl | freedns_ddns_client.py:136-145 | a one-line answer `name|url` selects itself for any domain setting and yields `url` |
| Client.FetchPublicIp | freedns_ddns_client.py:32-40 | a status of 300 or more is fatal; otherwise the body is the current IP |
| Client.ExitStatus | freedns_ddns_client.py:38 | a halted run exits with status 1 (`sys.exit(1)`), a normal end with status 0, and no other status occurs |
| Client.ReadCachedIp | freedns_ddns_client.py:43-58 | a missing file is created empty and reads as ""; an existing file is untouched and yields its first line: everything up to and including the first newline, or the whole contents when there is none |
| Client.WriteThenReadIff | freedns_ddns_client.py:151-155 | an IP written to the cache reads back unchanged iff it has no newline before its last character |
| Client.ReadCachedIpSettles | freedns_ddns_client.py:43-58 | reading the cache again reads the same IP and creates nothing |
| Client.WriteCachedIp | freedns_ddns_client.py:151-155 | after the write the file exists, and reading it creates nothing and yields the first line of the IP, which is the whole IP when it has no newline |
| Client.SendNotification | freedns_ddns_client.py:61-81 | no recipients: nothing sent and the run goes on; otherwise exactly one mail, and a failed delivery halts the run |
| Client.MailBody | freedns_ddns_client.py:71 | the body is the fixed lead text, the cached IP, the fixed separator text and the current IP, with nothing else |
| Client.NotifyIfEnabled | freedns_ddns_client.py:197-199 | at most one mail, sent iff email is on and recipients are set, and that mail goes to the recipients with the fixed subject and the body for the cached and current IP; the run goes on unless that mail failed |
| Client.UpdateFreeDns | freedns_ddns_client.py:91-148 | missing credentials halt with no request. Otherwise the records are looked up at the digest's URL. The update URL of the selected record is requested iff selection succeeds; a failed selection halts with its error |
| Client.ApplyChange | freedns_ddns_client.py:195-205 | the change branch completes iff both steps do and then ends with the cache write; a halt reports the first failing step, and a failed mail leaves only that mail |
| Client.StoreInPhaseOrder | freedns_ddns_client.py:201-205 | the FreeDNS step followed, once it completes, by the cache write acts in the order lookup, update request, cache write |
| Client.ChangeInPhaseOrder | freedns_ddns_client.py:195-205 | the change branch runs its actions in the order mail, lookup, update, cache write, each at most once |
| Client.ChangeReplaysSteps | freedns_ddns_client.py:195-203 | once the mail step went through, the branch's actions begin with that step's actions and then the FreeDNS step's, unaltered; when the FreeDNS step halts they are exactly those and nothing follows |
| Client.ChangeHaltedUpdateStopsEarly | freedns_ddns_client.py:116-143 | when the FreeDNS step halts, the change branch halts too, with no action past the record lookup |
| Client.ChangeHaltWritesNothing | freedns_ddns_client.py:195-205 | a halt in the change branch leaves the cache unwritten |
| Client.ChangeDoneEndsWithWrite | freedns_ddns_client.py:201-205 | a completed change branch ends with the FreeDNS step's lookup and update request, followed by writing exactly the current IP |
| Client.ChangeMailsIff | freedns_ddns_client.py:197-199 | the change branch mails iff the notification step did, even when a later step halts |
| Client.IpChanged | freedns_ddns_client.py:195 | after a successful fetch, with no cache file any non-empty IP counts as a change, and a one-line cache file counts as a change iff it differs from the IP |
| Client.Run | freedns_ddns_client.py:186-207 | the run starts with the IP request. A failed fetch stops before the cache is read, and a halted run never writes the cache |
| Client.RunInPhaseOrder | freedns_ddns_client.py:186-207 | a run acts in the fixed order IP request, cache creation, mail, lookup, update request, cache write, each at most once |
| Client.RunWritesOnlyLast | freedns_ddns_client.py:186-207 | only a run's last action can be the cache write, so the cache is written at most once |
| Client.UnchangedIpIsNoOp | freedns_ddns_client.py:194-207 | an unchanged IP ends normally with no mail, no provider request and no write, and an existing cache file is unchanged |
| Client.ChangedIpEndsWithWrite | freedns_ddns_client.py:195-205 | a completed run after a change had credentials and a selected record. It stores exactly the current IP, and its last three actions are the lookup at the URL for the credentials' digest, the request to the selected record's update URL, and the cache write |
| Client.RunDoneIff | freedns_ddns_client.py:186-207 | the process exits with status 0 iff the fetch succeeds and either the IP is unchanged or both the mail and the update succeed; otherwise with status 1 |
| Client.RunMailsIff | freedns_ddns_client.py:195-199 | a mail is sent iff the IP changed, email is on and recipients are set |
| Client.RunMailNamesBothIps | freedns_ddns_client.py:66-73 | a changed run with email on and recipients set sends the mail to those recipients, with the fixed subject and a body naming the cached and then the current IP |
| Client.FailedSelectionRequestsNoUpdate | freedns_ddns_client.py:112-147 | after a change, a failed record selection halts the run with no update request and no cache write |
| Client.MissingRecipientsSkipsNotification | freedns_ddns_client.py:66-69 | with no recipients, a run with email on is identical to one with email off |
| Client.MissingCredentialsNeverReachProvider | freedns_ddns_client.py:96-103 | without credentials no provider request and no cache write happen, and a changed IP halts the run |
| Client.FirstRunTakesChangePath | freedns_ddns_client.py:49-55 | with no cache file, a non-empty IP counts as a change: the run stores it or halts with an empty cache file |
| Client.CompletedRunSettles | freedns_ddns_client.py:186-207 | after a completed run, a run that fetches the same newline-free IP does nothing but the IP request |
| Client.InnerNewlineNeverSettles | freedns_ddns_client.py:48 | an IP with a newline before its last character is seen as changed again on every later run |

## Left out

- HTTP: the three `requests.get` calls are inputs. These are the IP service's status and body, the lookup answer's body, and nothing for the update request, whose answer is only logged. Exceptions raised by the HTTP library are not modelled. Examples are a connection error, or the empty URL that an empty lookup answer produces. The source stops with a traceback in those cases, and the model treats the request as made.
- Client.UpdateFreeDns: treats every update request as completing, because whether the request raises depends on the HTTP library (see the line above).
- Mail: `ezgmail.send` is a delivered/not-delivered flag. The comma-separated recipient string is kept opaque.
- SHA-1 (`sha1_encode`): an uninterpreted function parameter. Only the string that is hashed is stated.
- Environment (`load_dotenv`, `os.getenv`): the four settings are `Option<string>` inputs.
- Command line (`parse_arguments`): `--email yes|no` is a boolean.
- Logging (`init_logger`, every `logr` call) and console messages (`print`): not modelled. A run's end is `Done` or `Halted`, and `ExitStatus` maps these to 0 or 1.
- File system: the cache file is one cell, absent or holding a string. Permission and disk errors are not modelled, and neither are atomicity and the file's encoding.
- Text.ReadLine: `\n` is the only line ending. Python's universal-newline reading, which also ends a line at `\r` and `\r\n`, is not modelled.
- Concurrent runs: the client assumes a single instance, and so does the model.
