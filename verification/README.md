# AmneziaWG gateway bot — a Dafny model

A Telegram bot administers an AmneziaWG VPN server. This project models its core in Dafny 4.11 and proves properties of that model.

The bot:
- keeps its clients in an SQLite store;
- allocates each new client the lowest free address of the server subnet;
- registers peers with `awg set`;
- composes each client's `.conf` file and its `vpn://` link;
- reads `awg show` to record where peers connect from and how much traffic they used;
- runs a periodic pass that blocks clients that have expired or gone over quota;
- saves, lists, restores and deletes backups of its client table.

One module per source file:

| module | source | form |
|---|---|---|
| `Store` | database/database.py | class `Database`; its methods are specified by functions on a `Tables` value |
| `AwgManager` | services/awg_manager.py | parser, allocator and scanners as loops proved against fold functions; commands as values |
| `Traffic`, `Enforcement` | main.py | traffic parsing as functions; the limit pass as methods on `Database` |
| `AdminHandlers` | handlers/admin_handlers.py | name check, expiry arithmetic, client creation, paging, IP list, block toggle |
| `Keyboards` | keyboards/main_keyboards.py | the client list keyboard built by a loop; callback data and how it parses back |
| `Backups` | services/backup_service.py | class `BackupService` over a directory of entries |
| `IpService` | services/ip_service.py | class `IpService` holding the rate limiter's fields |
| `Formatters` | utils/formatters.py | size loop as a method; the rest as functions |
| `VpnConverter` | utils/vpn_converter.py | the Endpoint regex matcher, rewrite and link encoding |
| `SettingsService` | services/settings_service.py | getters and validators |
| `Auth` | middlewares/auth.py | the access predicate |

Helper modules model the Python library behaviour the core relies on:
- `Wrappers`: Option and Result.
- `PyText`: `strip`, `split`, `replace`, `upper`, `int()` and `str(int)`.
- `IpLiteral`: `ipaddress.ip_address`, `IPv4Network` and `hosts()`.
- `Lists`: filter and stable sort.
- `Bytes`: `struct.pack('>I')`.
- `Base64Url`: URL-safe base64.
- `Utf8`: UTF-8 encoding.

The environment is passed in as parameters:
- Time is whole seconds (`now`), and days are `YYYY-MM-DD` strings (`today`, `cutoff`).
- Each subprocess attempt ends as an `Exit`. Either it is `NotStarted`, because `create_subprocess_exec` raised, or it is `Exited(code)`. A command's outcome is given by a function `run` from the command to its `Exit`, or by a `Completed(exit, stdout)` value when its output is read.
- File contents are `Option<string>`, with None for a missing file.
- DNS resolution, the HTTP replies and zlib compression are functions given as parameters.
- X25519 key derivation is a function given as a parameter.

In `Store`, `traffic_limit` is a `Limit`: NULL, an integer, or text. SQLite's INTEGER column affinity is modelled by `IntegerAffinity`: text that is an integer literal is stored as that integer.

## Model

| member | source | states |
|---|---|---|
| Store.IntegerAffinity | database/database.py:58-70 | A limit text that is an integer literal is stored as that integer; any other value is kept unchanged; the result is always in stored form |
| Store.AffinityOfDecimalText | database/database.py:58-70 | The decimal text of `n` is stored as the integer `n` |
| Store.GetClient | database/database.py:192-200 | The result is a stored row with that id; None exactly when no row has that id |
| Store.GetClientUnique | database/database.py:192-200 | With ids unique, looking up a stored row's id returns that row |
| Store.GetClientByName | database/database.py:202-210 | The result is a stored row with that name; None exactly when the name is free |
| Store.GetClientByNameIs | database/database.py:202-210 | With names unique, looking up a stored row's name returns that row |
| Store.GetAllClients | database/database.py:212-218 | The rows sorted by `created_at` descending; a permutation of the table |
| Store.GetExpiredClientsMembers | database/database.py:246-256 | A client is listed iff it is stored and its `expires_at` is set and before `now` |
| Store.GetTrafficExceededClientsMembers | database/database.py:258-266 | A client is listed iff it is stored and its integer limit has been reached, following SQLite's comparison of integer and text |
| Store.GetClientDailyIps | database/database.py:289-309 | Ordered by `last_seen` descending; one entry per connection row of that client and day, and each entry comes from such a row |
| Store.GetClientDailyIpsComplete | database/database.py:289-309 | Every connection row of that client and day appears in the list |
| Store.GetSetting | database/database.py:126-134 | Some iff the key is stored, and then its stored value |
| Store.InitDbSpec | database/database.py:116-121 | Inserting the defaults keeps every client, connection and existing setting; afterwards both `default_dns` and `default_endpoint` exist |
| Store.AddClientSpecValid | database/database.py:175-190 | `add_client` keeps the table constraints and fails exactly when the name or the address is already taken |
| Store.AddClientSpecInserts | database/database.py:175-190 | On success one row is appended under the next AUTOINCREMENT id, carrying the given columns, no traffic, and `created_at = now` |
| Store.UpdateClientSpecOutcome | database/database.py:220-236 | Ok(false) and no change exactly when no row has the id; an error exactly when the new name clashes with another row; constraints kept |
| Store.UpdateClientSpecWrites | database/database.py:220-236 | A successful update rewrites only the matching row, and only its nine written columns |
| Store.DeleteClientSpecCorrect | database/database.py:238-244 | True iff the client existed; afterwards neither the client nor any of its connection rows remains; every other row stays |
| Store.AddConnectionSpecCorrect | database/database.py:268-287 | An upsert: the (client, ip, day) counter goes up by one, a new row starts at 1 with `first_seen = now`; no other counter changes |
| Store.CleanupSpecCorrect | database/database.py:311-317 | Exactly the connection rows dated on or after the cutoff remain; client rows are untouched |
| Store.Database.constructor | database/database.py:50-52 | A new store holds no rows and no settings |
| Store.Database.InitDb | database/database.py:54-124 | The store's new state is `InitDbSpec` of the old one |
| Store.Database.SetSetting | database/database.py:136-146 | The setting is replaced or inserted, returns true, and nothing else changes |
| Store.Database.AddClient | database/database.py:175-190 | The new state and id are those of `AddClientSpec`; the constraints hold |
| Store.Database.UpdateClient | database/database.py:220-236 | The new state and result are those of `UpdateClientSpec` |
| Store.Database.DeleteClient | database/database.py:238-244 | The new state and result are those of `DeleteClientSpec` |
| Store.Database.AddClientIpConnection | database/database.py:268-287 | The new state is `AddConnectionSpec` of the old one |
| Store.Database.CleanupOldIpConnections | database/database.py:311-317 | The new state is `CleanupSpec` of the old one |
| AwgManager.Classify | services/awg_manager.py:98-104 | A stripped line is a `peer:` line iff it starts with `peer:`; it is a field line iff it has a colon and starts with neither `peer:` nor `interface:` |
| AwgManager.RunAppend | services/awg_manager.py:97-113 | Parsing `a + b` is parsing `a` and then `b` from where `a` left off; the sightings concatenate |
| AwgManager.NoPeerNoTrace | services/awg_manager.py:97-113 | Lines before any `peer:` line create no record and no sighting |
| AwgManager.LinesBeforeFirstPeerDropped | services/awg_manager.py:97-113 | Such lines can be dropped without changing the parse |
| AwgManager.PeerRecord | services/awg_manager.py:100-106 | After `peer: p` and a run of non-peer lines, the record of `p` holds, per key, the value of the last field line with that key |
| AwgManager.RecordsComeFromPeerLines | services/awg_manager.py:100-102 | Every record key was opened by a `peer:` line |
| AwgManager.ShowOutput | services/awg_manager.py:74-120 | Output exists iff the plain command exits 0, or it exits non-zero and the sudo command exits 0; the plain command's output wins; a plain command that cannot start gives no output and no sudo attempt |
| AwgManager.FirstWithKey | services/awg_manager.py:125-130 | The first client with that key, or -1 iff no client has it |
| AwgManager.UnknownKeyChangesNothing | services/awg_manager.py:132-134 | Tracking a key no client holds leaves the store unchanged |
| AwgManager.KnownKeyRecorded | services/awg_manager.py:136-139 | For a known key, the first such client gets `last_ip` set and one more connection counted for that address |
| AwgManager.StoredRecorded | services/awg_manager.py:136-139 | Recording a stored client writes only its `last_ip` and the connection rows |
| AwgManager.TrackClientIp | services/awg_manager.py:122-144 | The store's new state is `TrackClientIpSpec` of the old one |
| AwgManager.RecordClient | services/awg_manager.py:136-139 | The store's new state is `RecordSighting` of the old one |
| AwgManager.GetInterfaceStats | services/awg_manager.py:71-120 | The returned records and the new store are `InterfaceStatsSpec`: the parse of the output, with every endpoint sighting tracked in order |
| AwgManager.FeedLines | services/awg_manager.py:94-114 | The loop returns the records of `Run` over the lines, and the store has tracked exactly that run's sightings |
| AwgManager.UsedAddresses | services/awg_manager.py:286-292 | An address is taken iff it is the server's or some client's |
| AwgManager.FirstFreeIndex | services/awg_manager.py:296-302 | The first host not taken; every host before it is taken; -1 iff all are taken |
| AwgManager.NextAvailableIp | services/awg_manager.py:279-306 | A subnet that does not parse gives None |
| AwgManager.NextInNetworkIsLowestFree | services/awg_manager.py:283-302 | The address handed out is a host of the network, not taken, and every lower host is taken; None iff every host is taken |
| AwgManager.GetNextAvailableIp | services/awg_manager.py:279-306 | The method returns `NextAvailableIp` of the store's state |
| AwgManager.CollectUsed | services/awg_manager.py:286-292 | The loop builds `UsedAddresses` |
| AwgManager.ScanHosts | services/awg_manager.py:296-299 | The loop returns `FirstFreeIndex` |
| AwgManager.PutLookup | services/awg_manager.py:532 | After `d[k] = v`, `d[k]` is `v` and every other key reads as before |
| AwgManager.PutDistinct | services/awg_manager.py:532 | Keys stay distinct under `d[k] = v` |
| AwgManager.ClassifyConf | services/awg_manager.py:516-525 | A stripped line is ignored iff blank or a comment; it is a section header iff it starts with `[`; the header is `[Interface]` exactly when the stripped text is; any other line is inert iff it holds no `=` |
| AwgManager.ClassifyAssignment | services/awg_manager.py:516-531 | Any other line holding `=` is split at its first `=` into a stripped key and a stripped value |
| AwgManager.AmneziaParams | services/awg_manager.py:492-547 | Parameters exist iff the file exists; no skipped key is ever returned |
| AwgManager.NoInterfaceNoParams | services/awg_manager.py:512-532 | Without an `[Interface]` header nothing is collected |
| AwgManager.ScanSection | services/awg_manager.py:511-523 | The loop's `in_interface_section` flag is whether the last header seen so far was `[Interface]` |
| AwgManager.ParamsFromAssignments | services/awg_manager.py:511-532 | Every returned pair comes from a `key = value` line whose last preceding header is `[Interface]`, and its key is not skipped |
| AwgManager.AssignmentCollected | services/awg_manager.py:511-532 | Every `key = value` line under `[Interface]` with a key that is not skipped is returned with its value, unless a later such line reassigns the key (the last one wins) |
| AwgManager.GetServerAmneziaParams | services/awg_manager.py:492-547 | The loop returns `AmneziaParams` of the file |
| AwgManager.FirstKeyLine | services/awg_manager.py:563-564 | The first line whose stripped text starts with `PrivateKey`; no earlier line does |
| AwgManager.PadBase64 | services/awg_manager.py:602-604 | The text followed by `=` up to a multiple of four, adding fewer than four |
| AwgManager.PadBase64Idempotent | services/awg_manager.py:602-604 | Padding changes nothing on a multiple of four, and padding twice is padding once |
| AwgManager.ServerPublicKey | services/awg_manager.py:549-575 | A missing file gives no key |
| AwgManager.ServerKeyFromFirstKeyLine | services/awg_manager.py:563-568 | The key is derived from the stripped, padded value of the first `PrivateKey` line |
| AwgManager.ConfigLayout | services/awg_manager.py:435-458 | `[Interface]`, key, address `/32` and DNS; one `name = value` line per parameter in order; then two blank lines and the `[Peer]` block with the server key, preshared key, `0.0.0.0/0`, `endpoint:port` and keepalive 25 |
| AwgManager.ClientConfigSpec | services/awg_manager.py:419-466 | Fails on a missing or empty server key, and on missing Amnezia parameters; otherwise the lines joined with newlines |
| AwgManager.ConfigReadsBack | services/awg_manager.py:460 | When no field holds a newline, splitting the file on newlines gives back its lines |
| AwgManager.CreateClientConfig | services/awg_manager.py:419-466 | The method returns `ClientConfigSpec` |
| AwgManager.AppendParams | services/awg_manager.py:442-444 | The loop appends exactly the parameter lines, in order |
| AwgManager.SaveServerConfig | services/awg_manager.py:38-69 | `awg-quick save` is tried first; the sudo form is tried iff the first ran and exited non-zero; success iff an attempt made exits 0; a first command that cannot start gives false at once |
| AwgManager.RemovePeerFromServer | services/awg_manager.py:468-490 | Only the sudo removal is tried; success iff it exits 0, and then the save follows; a removal that cannot start fails like one that exits non-zero |
| AwgManager.AddPeerToServer | services/awg_manager.py:308-349 | `awg set` is tried with the preshared key on stdin; success iff it exits 0, followed by the save; when it exits non-zero the sudo command is started without input and the call fails; when it cannot start, nothing else is tried |
| Traffic.ParseDecimal | main.py:36 | A parsed `float()` text is never empty |
| Traffic.ParseDecimalOfFraction | main.py:36 | `float()` of an optional sign, digits, `.` and digits is the signed digit string scaled down by the number of fraction digits |
| Traffic.ParseDecimalOfWhole | main.py:36 | `float()` of an optional sign and digits is that signed whole number |
| Traffic.ParseTrafficSizeOfHalf | main.py:25-51 | `<number> <unit> received` and `<number> <unit> sent` both parse as the two tokens `[number, unit]`, for a unit free of whitespace, `received` and `sent` |
| Traffic.Scaled | main.py:51 | `int(value * multiplier)` truncates the exact product toward zero |
| Traffic.Multiplier | main.py:37-51 | The unit is upper-cased and looked up; an unknown unit counts as bytes |
| Traffic.TokensSize | main.py:32-51 | Anything other than two tokens is 0; otherwise a parse failure exactly when `float()` refuses the number, and the size is the number times the unit's multiplier, truncated |
| Traffic.WholeAmount | main.py:32-51 | `n <unit>` reads back as `n` times the unit's multiplier |
| Traffic.TrafficTotal | main.py:21-55 | A total exists exactly when the transfer text splits on `", "` into two parts that both parse, and is the sum of both sizes |
| Traffic.UpdateTrafficWrites | main.py:16-62 | For a stored row, the update rewrites only `traffic_used`, and changes nothing when the total is unchanged (the client-detail handler's copy in handlers/admin_handlers.py:290-333 is the same code) |
| Traffic.RefreshedRow | main.py:55-58 | The refreshed row differs from the stored one in `traffic_used` only |
| Enforcement.ExpireRow | main.py:78-81 | An expired row ends blocked iff it was blocked or active; everything else about the row is kept |
| Enforcement.ExpireAllEffect | main.py:77-82 | Over listed stored rows, the expiry loop blocks exactly the listed active unblocked rows and changes nothing else |
| Enforcement.ExpiryStep | main.py:77-82 | Run over the expired-clients query, the loop yields `ExpireRows` |
| Enforcement.QuotaRow | main.py:87-103 | The quota step keeps the row's identity and limit; it blocks only a listed peer whose refreshed usage reached a non-zero integer limit |
| Enforcement.QuotaAllEffect | main.py:87-103 | Over listed stored rows, each listed row becomes its `QuotaRow`; others stay |
| Enforcement.QuotaStep | main.py:85-103 | Over `get_all_clients`, every row becomes its `QuotaRow` |
| Enforcement.StatsOnlyLastIp | services/awg_manager.py:71-120 | Reading the interface stats changes the client rows only in their `last_ip` |
| Enforcement.StatsEvolves | main.py:84 | Reading `awg show` never unblocks, adds, removes or re-keys a client |
| Enforcement.PassEffect | main.py:73-108 | One pass: each row is expired, then refreshed and quota-checked; nothing is unblocked, added, removed, re-keyed or re-activated |
| Enforcement.ExpiredEndsBlocked | main.py:77-82 | An active client past its expiry ends the pass blocked |
| Enforcement.NoQuotaNoBlock | main.py:97-100 | A missing, zero or non-integer limit never blocks |
| Enforcement.OverQuotaBlocked | main.py:97-102 | An active unblocked peer whose refreshed usage reaches its non-zero integer limit is blocked |
| Enforcement.UpdateClientTrafficUsageMain | main.py:16-62 | The store's new state is `UpdateTrafficSpec` of the old one |
| Enforcement.CheckClientLimits | main.py:73-108 | One iteration of the loop leaves the store in `PassSpec` of the old state |
| Enforcement.BlockExpired | main.py:78-82 | The expiry loop's effect is `ExpireAll` |
| Enforcement.CheckQuotas | main.py:87-103 | The quota loop's effect is `QuotaAll` |
| Enforcement.CheckQuota | main.py:88-103 | One quota iteration's effect is `QuotaOne` |
| AdminHandlers.Core | handlers/admin_handlers.py:496 | After the three `replace` calls, a character remains iff it was in the name and is not `-`, `_` or `.` |
| AdminHandlers.ReplaceDeletes | handlers/admin_handlers.py:496 | Replacing a one-character text with "" deletes every occurrence |
| AdminHandlers.CoreIsAlnum | handlers/admin_handlers.py:496 | The name passes `isalnum` iff it has a non-separator character and only letters, digits and separators |
| AdminHandlers.CheckName | handlers/admin_handlers.py:469-535 | Accepted iff the stripped name has 2 to 32 characters of the allowed kinds and no client has it; the accepted value is the stripped name; each refusal reason is stated |
| AdminHandlers.AcceptedNameStripped | handlers/admin_handlers.py:471 | An accepted name has no surrounding whitespace |
| AdminHandlers.PresetExpiry | handlers/admin_handlers.py:668-707 | `custom` asks for a unit; `unlimited` means no expiry; a token that ends in no known suffix leaves the expiry unset |
| AdminHandlers.PresetOfPeriod | handlers/admin_handlers.py:683-705 | `<n><suffix>` expires `n` periods after `now`, with a month of 30 days and a year of 365 |
| AdminHandlers.CustomExpiry | handlers/admin_handlers.py:757-789 | Accepted iff the text is an integer from 1 to 1000; the expiry lies between one hour and 1000 years ahead; with no unit chosen, days |
| AdminHandlers.CustomMatchesPreset | handlers/admin_handlers.py:778-787 | `n` custom units end where the preset `<n><suffix>` does |
| AdminHandlers.CreationLimitAsWritten | handlers/admin_handlers.py:825-884 | As written, the stored limit is the raw token text, once `int()` has accepted it |
| AdminHandlers.CreationLimit | handlers/admin_handlers.py:828-831 | `unlimited` means no limit; a number `n` means `n` GiB; anything else is refused |
| AdminHandlers.RawTokenStoredAsBytes | handlers/admin_handlers.py:884 | As written, `n` GB is stored as the integer `n`, not `n` GiB |
| AdminHandlers.FiveGbBlocksAtFiveBytes | handlers/admin_handlers.py:884 | As written, the 5 GB choice makes a client that has used 5 bytes over quota |
| AdminHandlers.CreationLimitQuota | handlers/admin_handlers.py:828-831 | With the intended limit, a client created with `n` GB is over quota exactly at `n` GiB |
| AdminHandlers.CreateClientCreated | handlers/admin_handlers.py:823-912 | A created client is stored under a fresh id with the dialogue's name, endpoint and expiry, the generated keys, the lowest free address and the intended limit; it has no traffic and is active and unblocked; no other row changes; the peer is added first |
| AdminHandlers.CreateClientFailed | handlers/admin_handlers.py:863-929 | A failed creation leaves the client rows as they were, including when the server refuses the peer and the new row is deleted |
| AdminHandlers.ProcessTrafficLimit | handlers/admin_handlers.py:823-932 | The corrected handler's effect on the store is `CreateClientSpec` |
| AdminHandlers.CreationAsWrittenNeverStores | handlers/admin_handlers.py:823-932 | As written, the handler never changes the store and never creates a client; whenever the corrected handler creates one, the written one raises |
| AdminHandlers.TotalPages | handlers/admin_handlers.py:967 | `n` clients fill exactly that many pages of ten |
| AdminHandlers.ClampPage | handlers/admin_handlers.py:966-973 | The shown page is an existing page holding clients; an in-range page is kept; a negative one becomes 0, and one too far becomes the last |
| AdminHandlers.CurrentEndpoint | handlers/admin_handlers.py:1301-1304 | "" when the peer has no or an empty `endpoint` field; otherwise exactly the text before its first `:`, meaning no `:` in the result, which is the whole field or is followed by `:` in it |
| AdminHandlers.UniqueIpsCorrect | handlers/admin_handlers.py:1322-1330 | The list holds each of today's addresses other than the current one exactly once, at its first (most recent) connection |
| AdminHandlers.ListUniqueIps | handlers/admin_handlers.py:1322-1330 | The loop builds `UniqueIps`: no current address, no repeats, and every other address of the day |
| AdminHandlers.Shown | handlers/admin_handlers.py:1335 | At most the first seven entries are printed |
| AdminHandlers.Remaining | handlers/admin_handlers.py:1353-1355 | "and N more" appears iff more than seven remain; N plus the shown count is the total |
| AdminHandlers.ToggleBlockSpec | handlers/admin_handlers.py:1065-1100 | Not found exactly when no such client exists; a failed server command leaves the store unchanged; the store stays within its constraints |
| AdminHandlers.ToggleBlockEffect | handlers/admin_handlers.py:1065-1091 | Blocking removes the peer and unblocking adds it, and the toggle succeeds iff that command does; on success the row's flag flips and the stats are then read from that store, so the client rows change otherwise only in `last_ip` |
| AdminHandlers.ToggleTwice | handlers/admin_handlers.py:1065-1091 | After two successful toggles of one client every client row is as it was, except for the `last_ip` the two stats reads may write |
| AdminHandlers.ToggleClientBlock | handlers/admin_handlers.py:1065-1100 | The handler's effect on the store, the flag write followed by `get_interface_stats`, is `ToggleBlockSpec` |
| Keyboards.ClientButton | keyboards/main_keyboards.py:104-109 | A green mark iff the client is active and unblocked, otherwise red; then a space and the name; the callback is `client_details:<id>` |
| Keyboards.SliceIndex | keyboards/main_keyboards.py:100-102 | A slice bound as Python reads it: a negative one counts from the end, and it is clamped to the list |
| Keyboards.PageClientsWindow | keyboards/main_keyboards.py:100-102 | For a page from 0, the page is the clients from `page*per_page`, at most `per_page` of them, and empty iff the start is past the end |
| Keyboards.PageCount | keyboards/main_keyboards.py:113 | No clients give 0 pages; otherwise the least number of pages holding them all |
| Keyboards.NavButtons | keyboards/main_keyboards.py:112-133 | First and Back appear iff `page > 0`; Next and Last appear iff `page < total-1`; the targets are 0, page-1, page+1 and total-1 |
| Keyboards.NavButtonsPresence | keyboards/main_keyboards.py:115-133 | The First button is present iff `page > 0`; the Last button iff `page < total-1` |
| Keyboards.ListKeyboardShape | keyboards/main_keyboards.py:104-146 | The keyboard is the client buttons, then 0, 2 or 4 navigation buttons, then the menu button, which is the only `clients_menu` callback |
| Keyboards.ClientListKeyboard | keyboards/main_keyboards.py:96-149 | The builder loop produces `ListKeyboard` |
| Keyboards.PageCallbackParses | handlers/admin_handlers.py:953 | The handler reads back the page number the keyboard wrote |
| Keyboards.NavTargetsInRange | keyboards/main_keyboards.py:115-133 | From a valid page, every navigation button leads to a valid page |
| Keyboards.ShownPageHasClients | handlers/admin_handlers.py:966-980 | The page the handler shows has clients on it and at most ten; the handler's page count agrees with the keyboard's, and the clamped page is below it |
| Keyboards.ConfirmationKeyboard | keyboards/main_keyboards.py:314-326 | Yes carries `confirm:<action>:<id>` and No carries `cancel:<action>` |
| Keyboards.ConfirmSplits | keyboards/main_keyboards.py:319 | With a colon-free action, `split(":", 2)` recovers the action and the id |
| Keyboards.DeleteConfirmationId | handlers/admin_handlers.py:1429 | The delete handler reads back the client id that the confirmation carries |
| Keyboards.EditCallbackRoundTrip | handlers/admin_handlers.py:1872-1874 | `split(":", 2)` of `<prefix>:<id>:<token>` gives back the id and the token |
| Keyboards.EditChoicesRoundTrip | keyboards/main_keyboards.py:365-434 | Every edit button's callback parses back to its client id and its choice |
| Keyboards.TrafficTokensConvert | handlers/admin_handlers.py:2113-2116 | Every traffic button's token converts to a limit without error |
| Backups.RecordsOf | services/backup_service.py:45-59 | One record per listed client, in order, with its eleven fields |
| Backups.Put | services/backup_service.py:61-63 | Writing a file keeps names distinct; the new file is found under its name; other files stay |
| Backups.Unlinked | services/backup_service.py:150-151 | After unlinking, exactly the other files remain |
| Backups.BackupNameMatches | services/backup_service.py:26-27 | A backup's own name matches the `awg_backup_*.zip` pattern |
| Backups.GlobbedMembers | services/backup_service.py:84-91 | The glob lists an entry iff some file's name matches the pattern |
| Backups.ListSpecCorrect | services/backup_service.py:79-98 | Sorted newest first; a file is listed iff its name matches; every listed name matches |
| Backups.DeleteAllEmpties | services/backup_service.py:119-121 | Deleting every listed client empties the client table and keeps the constraints, settings and id counter |
| Backups.RestoreSpec | services/backup_service.py:100-143 | A missing file, an unreadable archive or a missing `clients.json` returns false and changes nothing |
| Backups.RestoreWithoutClientsKey | services/backup_service.py:119-123 | Restoring a document without a `clients` key wipes every client and returns false |
| Backups.AddEachAll | services/backup_service.py:123-136 | Records with distinct names and addresses are all inserted, in order, under consecutive new ids |
| Backups.BackupRestoreRoundTrip | services/backup_service.py:45-136 | Restoring a backup of the store gives back every client, in order, with name, keys, address, endpoint, expiry, limit and flags kept; the preshared key, usage, `created_at`, `last_ip` and `daily_ips` are reset |
| Backups.BackupUnit | services/backup_service.py:164-171 | The unit is the largest of B, KB, MB and GB that the size reaches |
| Backups.BackupUnitMatchesTraffic | services/backup_service.py:162-171 | Below 1024^4 this is the unit the traffic formatter picks; above it, GB against TB |
| Backups.FormatBackupSize | services/backup_service.py:162-171 | Below 1024 the whole size in B; otherwise the value ends in its unit |
| Backups.BackupService.constructor | services/backup_service.py:17-21 | The service starts on the existing directory |
| Backups.BackupService.CreateBackup | services/backup_service.py:23-77 | Returns `awg_backup_<timestamp>.zip`; the directory gains that file, whose `clients.json` holds the records of every listed client |
| Backups.BackupService.ListBackups | services/backup_service.py:79-98 | Returns `ListSpec` of the directory |
| Backups.BackupService.RestoreBackup | services/backup_service.py:100-143 | The store's new state and the result are `RestoreSpec` |
| Backups.BackupService.DeleteBackup | services/backup_service.py:145-160 | True iff the file existed; the directory loses exactly that file |
| IpService.CheckSpec | services/ip_service.py:73-81 | An expired window restarts at zero for 60 seconds; the call is allowed iff the count is below the budget |
| IpService.LookupCounts | services/ip_service.py:18-59 | A refused lookup makes no request; an allowed one counts exactly when the reply is a status-200 JSON body; a record comes only from such a reply |
| IpService.LookupWithin | services/ip_service.py:18-86 | One lookup at a time, the count never passes the budget |
| IpService.BatchKeys | services/ip_service.py:61-71 | The batch asks about at most the first five addresses, keeps only those, and respects the budget |
| IpService.IpService.constructor | services/ip_service.py:11-16 | Nothing counted; the window restarts at the first check |
| IpService.IpService.CheckRateLimit | services/ip_service.py:73-81 | The limiter's new fields and the answer are `CheckSpec` |
| IpService.IpService.UpdateRateLimit | services/ip_service.py:83-86 | The count goes up by one and the last request time is now |
| IpService.IpService.GetIpInfo | services/ip_service.py:18-59 | The result and the new fields are `LookupSpec` |
| IpService.IpService.GetIpInfoBatch | services/ip_service.py:61-71 | The result and the new fields are `BatchSpec` |
| IpService.FormatMultipleIpInfo | services/ip_service.py:102-114 | An empty dictionary gives the unavailable text; otherwise the heading and one numbered entry per address, in insertion order |
| Formatters.UnitForIsLargest | utils/formatters.py:79-85 | The unit is the largest of B to TB that the size reaches, and B below 1024 |
| Formatters.RoundHalfEven | utils/formatters.py:90 | The rounded value is within half a unit of the exact quotient |
| Formatters.FormatTrafficSize | utils/formatters.py:74-90 | 0 gives `0 B`; otherwise the size in the unit the loop reaches |
| Formatters.DurationParts | utils/formatters.py:93-107 | Seconds below a minute; minutes below an hour; hours and minutes below a day; otherwise days and hours, each bracketing the input |
| Formatters.TruncateText | utils/formatters.py:125-129 | Short text is unchanged; longer text ends in `...`, and for a limit of 3 or more has exactly that length and keeps the prefix |
| Formatters.TruncateSmallLimit | utils/formatters.py:129 | With a limit of 0, the negative slice bound keeps all but three characters, so the result is as long as the input |
| Formatters.FormatBoolean | utils/formatters.py:132-134 | The true text iff the value is true |
| Formatters.FormatIpWithMaskSplits | utils/formatters.py:142-144 | Splitting at the first `/` recovers the address and the mask |
| Formatters.ClientStatus | utils/formatters.py:10-15 | Blocked wins over inactive, which wins over active |
| Formatters.IsConnected | utils/formatters.py:18 | Connected iff statistics exist and are non-empty |
| Formatters.Expiry | utils/formatters.py:22-26 | No expiry iff none is set; marked expired iff before now |
| Formatters.LimitFlag | utils/formatters.py:29-34 | Unlimited for a NULL, zero or empty limit; a raise for other text; exceeded iff the limit is positive and reached |
| Formatters.ExceededMatchesQuota | utils/formatters.py:32-34 | For a positive limit, the card's exceeded mark agrees with the store's quota query |
| SettingsService.GetDefaultDns | services/settings_service.py:14-17 | The stored value when non-empty, else `1.1.1.1, 8.8.8.8`; never empty |
| SettingsService.GetDefaultEndpoint | services/settings_service.py:27-30 | The stored value iff it is not blank |
| SettingsService.DnsServersOfEntries | services/settings_service.py:36-45 | A comma list is valid iff each stripped entry is empty or an IP address |
| SettingsService.ValidateEndpoint | services/settings_service.py:47-56 | Valid only when not blank; then either an IP address or a dotted domain of alphanumeric-edged labels |
| SettingsService.DottedQuadEndpointValid | services/settings_service.py:51-53 | Every dotted quad is a valid endpoint |
| Auth.Dispatch | middlewares/auth.py:21-30 | The handler runs iff the sender is in the admin list, and its result is returned; otherwise the refusal is answered without calling it |
| Auth.DecisionOnlyByUser | middlewares/auth.py:21-23 | The decision depends only on the sender's id |
| VpnConverter.QCompressFrame | utils/vpn_converter.py:8-11 | The frame is the four-byte big-endian length, then the compressed data; it fails iff the length does not fit in 32 bits |
| VpnConverter.HostPort | utils/vpn_converter.py:50 | The host is a non-empty run without whitespace or colons, then a colon and a non-empty run of digits, matched greedily |
| VpnConverter.EndpointLineSound | utils/vpn_converter.py:50 | A matched line is its lead, the host, a colon, the port and the rest, in that order |
| VpnConverter.EndpointLineComplete | utils/vpn_converter.py:50 | Every line of the pattern's shape matches |
| VpnConverter.MatchHasColon | utils/vpn_converter.py:50 | A line without a colon never matches |
| VpnConverter.RewriteLineChanges | utils/vpn_converter.py:33-48 | A rewritten line differs only in its host, which becomes the resolved address |
| VpnConverter.RewriteLineKeepsLiteral | utils/vpn_converter.py:40-48 | A host that is already an IP address leaves the line unchanged |
| VpnConverter.RewriteLineKeepsUnresolved | utils/vpn_converter.py:41-46 | A host that fails to resolve leaves the line unchanged |
| VpnConverter.ProcessConfUnresolved | utils/vpn_converter.py:31-51 | When no name resolves, the configuration passes through unchanged |
| VpnConverter.ProcessConfWithoutColon | utils/vpn_converter.py:31-51 | A configuration without any colon passes through unchanged |
| VpnConverter.ConfToVpnUrlShape | utils/vpn_converter.py:53-62 | A link is `vpn://` followed by URL-safe base64 characters, never `=` |
| VpnConverter.ConfToVpnUrlRoundTrip | utils/vpn_converter.py:53-60 | Stripping `vpn://`, re-padding, decoding, skipping the length header and decompressing gives back the processed configuration's UTF-8 text |
| Base64Url.DecodeEncode | utils/vpn_converter.py:14 | URL-safe base64 decoding inverts the padded encoding |
| Base64Url.Base64UrlEncodeShape | utils/vpn_converter.py:13-15 | The stripped encoding has `ceil(4n/3)` alphabet characters and no `=` |
| Base64Url.RepadDecode | utils/vpn_converter.py:13-15 | Re-padding the stripped encoding and decoding gives the bytes back |
| Utf8.DecodeEncode | utils/vpn_converter.py:57 | Decoding the UTF-8 encoding of a text gives the text back |
| Bytes.UnpackPack | utils/vpn_converter.py:10 | The big-endian four-byte header reads back as the length |
| IpLiteral.ParseIpv4OfIpv4ToString | services/awg_manager.py:297 | A host's dotted quad reads back as the same address |
| IpLiteral.Hosts | services/awg_manager.py:296 | The hosts ascend strictly within the network; below a /31, the network and broadcast addresses are left out |
| IpLiteral.ParseIpv4Network | services/awg_manager.py:283 | A parsed network has a prefix of at most 32 and no host bits set |
| IpLiteral.NetworkOfAddress | services/awg_manager.py:283 | A bare address is the /32 network of that address |
| IpLiteral.NetworkWithPrefix | services/awg_manager.py:283 | `address/p` with 0 <= p <= 32 is the network (address, p) when no host bits are set, and refused otherwise |
| IpLiteral.NetworkWithNetmask | services/awg_manager.py:283 | `address/netmask` is the network of the netmask's prefix length |
| IpLiteral.NetworkWithHostmask | services/awg_manager.py:283 | `address/hostmask` is the network of the hostmask's prefix length, for prefixes 1 to 31 |
| IpLiteral.NetmaskPrefix | services/awg_manager.py:283 | A dotted netmask is read as its own prefix length |
| IpLiteral.HostmaskPrefix | services/awg_manager.py:283 | A dotted hostmask of a prefix from 1 to 31 is no netmask, and is read as that prefix length |

## Left out

- Telegram plumbing is not modelled: message texts, `edit_or_send_message`, `user_last_message`, FSM states, the static menus and `format_client_info`'s text. Only the status, connection, expiry and quota flags of the client card are modelled.
- Subprocesses are not run. `awg`, `awg-quick` and `sudo` outcomes are inputs, and `check_awg_available`, `check_interface_*` and `verify_interface_active` are not part of this model.
- `add_peer_normal` and `add_peer_sudo` are unused duplicates and are not modelled.
- X25519 key generation, key derivation and `os.urandom` are foreign cryptography. Derivation is a function parameter, and `generate_keypair*` produces the `KeyTriple` input. Only the base64 padding step of `private_to_public_key` is modelled.
- zlib is a function parameter. The round trip assumes a given decompressor that inverts it.
- DNS resolution is a function parameter.
- HTTP exchanges with the geolocation API are `Response` inputs.
- `format_ip_info` is a UI text and is not modelled.
- Time and concurrency are not modelled: the 30 s and 300 s sleeps, the 0.5 s batch pause and asyncio interleaving. A pass takes one `now` and one `today`.
- Dates are whole seconds. `strftime`, `isoformat`/`fromisoformat` and `timedelta` overflow are not modelled, nor are `format_datetime`, `format_date` and `format_time`.
- Traffic.ParseDecimal: `float()` is exact decimal arithmetic here. Exponent forms, `inf`, `nan` and underscores count as refused, and binary floating-point rounding is not modelled.
- Formatters.FormatTrafficSize: `:.2f` rounds the exact quotient half to even. For sizes beyond 2^53 bytes this can differ from rounding the float.
- `format_percentage` and the float percentage in the client card are not modelled; only whether the usage reaches the limit is.
- Backups.FormatBackupSize: only the unit is stated for `:.1f`; its digits are not.
- Storage is not modelled: SQLite mechanics, `ALTER TABLE` migrations, file-system errors, zip and JSON I/O. The JSON round trip of a record is taken as exact.
- `get_all_settings` is a plain listing and is not modelled.
- Store.GetAllClients: ties on `created_at` come back in insertion order. SQLite does not promise that order.
- `create_client_config` reads the server configuration twice, once for the key and once for the parameters. The two reads are separate inputs, and a file that changes between them is not considered.
- AdminHandlers.ProcessTrafficLimit: the method models the handler with two corrections, both listed under Findings. First, `Client(...)` is built without the `ipv6_address` and `has_ipv6` keywords, which the dataclass does not declare, and without the IPv6 branch, whose `get_next_available_ipv6` is not defined. Second, the limit stored is the intended `CreationLimit` in place of the raw token. The handler as written is `CreateClientAsWritten`.
- AdminHandlers.CreateClientCreated: states the outcome of the corrected handler. As written, no client is ever created.
- Backups.BackupService.CreateBackup: the zip's `config` block, server configuration and `database.db` members are not modelled, only `clients.json`.
- Backups.BackupService.ListBackups: the `path` field is not modelled, and the glob's order is taken to be directory order.
- Backups.RestoreSpec: every restored row gets the same `now`.
- A backup name containing `/` or `..` is treated as a plain name.
- VpnConverter.ProcessConf: the Endpoint pattern is matched line by line. Python's `\s*` around `=` can also cross a line break. With `Endpoint =` followed by a line `vpn.example.com:51820`, Python rewrites the host and the model leaves the text unchanged. `\s` is Python's Unicode whitespace, as `str.isspace` defines it.
- `\d`, `isalnum` and `str.upper` are ASCII here; Python's Unicode digits, letters and case mappings are not modelled. So `Traffic.Multiplier` reads the unit `Kıb` as bytes, where Python's `upper()` gives `KIB`. No unit written by `awg show` contains such a letter.
- Store.IntegerAffinity: only text that is an integer literal becomes an integer. SQLite also converts text with surrounding spaces, such as `" 5 "`, and real literals with an integral value, such as `"5.0"`. The handlers store no such text.
- UTF-8 encoding of lone surrogates is not modelled; Python refuses them.
- `int()` with underscores or non-ASCII digits is not modelled.
- The IPv6 literal check is syntactic. It is used only to decide whether a host is an address.

## Findings

| source | as written | input that shows it | evidently intended | confidence | as-written member | corrected member |
|---|---|---|---|---|---|---|
| handlers/admin_handlers.py:829-831, 884 | The GiB count is computed but the raw token is passed as `traffic_limit`; INTEGER affinity stores `"5"` as 5 bytes | Choosing the 5 GB button: the client is over quota after 5 bytes. This happens only once the `Client(...)` TypeError of the next row is fixed | Store `n * 1024^3` bytes, or no limit for `unlimited` | not executed | AdminHandlers.RawTokenStoredAsBytes | AdminHandlers.CreationLimitQuota |
| handlers/admin_handlers.py:874-887 | `Client(...)` is called with `ipv6_address` and `has_ipv6`, which the dataclass in database/database.py:7-24 does not declare; the TypeError is caught by the `except` at line 923 | Any traffic choice while a free address exists: the admin sees the error message and no client is stored | Build the client without those keywords, or declare them on the dataclass | not executed | AdminHandlers.CreationAsWrittenNeverStores | AdminHandlers.CreateClientCreated |
