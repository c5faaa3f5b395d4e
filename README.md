# iBuzz core, modelled in Dafny

iBuzz collects readings from bee hives and the weather stations beside them.
A Digital Matter "Hawk" device sends uplinks of JSON records. The server
decodes each record's ELA RHT sensor payload, which gives outside humidity and
temperature. It stores one row per record in a SQLite `Data` table, serves
time series from that table, and keeps user accounts, hawk ownership,
visibility grants and threshold rules in a second database. It e-mails an
alert when a reading crosses a rule's threshold. A `ReplayLog` object can
append text to named log files.

The model has one module per core file:

| module | file | form |
|---|---|---|
| `Base` | (shared) | `Option`, `Result`, the dynamic `Value`, `EndsWith` |
| `EncodedData` | `encoded_data.py` | pure: the field extractor is a method with a loop, proved against the function `ExtractFields` |
| `Readings` | `hive_data.py` | classes `HiveData` and `WeatherStationData`; an attribute never assigned is `None` |
| `DataStore` | `database.py` | class `Database`: the `Data` table as a map from primary key to row, plus the table lock |
| `Logins` | `login_database.py` | class `LoginDatabase`: four tables as sequences in insertion order, with their primary keys as the invariant `Valid`; `HawkOwnership`'s rowid is its serial number, so its scans are in serial order |
| `Alerts` | `notifications.py` | class `Notifications`; the mails are returned as a sequence of `Alert`s |
| `Replay` | `replay_log.py` | class `ReplayLog` over a `FileSystem` object |

Python exceptions become `Err`/`Some(error)` results. Where a method stops
early after changing state, for example ingestion after inserting some rows,
the state it leaves is part of its contract.

Facts of the code that shape the model:
- The `Data` table's primary key is `(SerNo, SeqNo)`. A repeated key raises
  `IntegrityError` and ends the uplink.
- No tag name is checked and no signature field is compared. The ELA RHT
  layout never reads bytes 0-20 of the payload (`ElaRhtIgnoresHeader`); they
  reach the outcome only through the debug print of the payload as text, which
  raises when neither the payload nor its first four bytes are UTF-8
  (`DebugPrintCounterexample`).
- Ingestion decodes only the ELA RHT payload, with no other decoder and no
  fallback, merges no readings and sends no notification. The seven hive
  columns are stored as zeros (`WeatherRow`).
- A payload that fails to decode raises and ends the whole uplink.
- Notification rules carry a hive number. It goes into the alert, but it never
  decides whether a rule fires (`HiveNumberIrrelevant`).

## Model

The query functions of `Logins.LoginDatabase` (`FetchUser`, `FetchUserByEmail`,
`CheckVisibilityPermissions`, `FetchVisibleSerialNumbers`, `FetchNotifications`,
`FetchHawkOwner`; login_database.py:58-75, 185-205, 243-264) only apply the
module functions `UserById`, `UserByEmail`, `CanView`, `VisibleSerials`,
`RulesFor` and `HawkOwner` to the object's tables. The rows below state what those
functions promise.

| member | source | states |
|---|---|---|
| EncodedData.ExtractData | encoded_data.py:10-27 | a payload whose debug print as text raises (neither it nor its first four bytes are UTF-8) gives `NotUtf8`; any other returns exactly `ExtractFields`: fields are cut in order, skipped fields are stepped over, and a kept field with no bytes left is an error |
| EncodedData.CharLength | encoded_data.py:16 | the UTF-8 character at the front of the bytes is at most four bytes long, and one byte exactly when it is ASCII |
| EncodedData.AsciiIsUtf8 | encoded_data.py:16 | an ASCII payload decodes as UTF-8, so its debug print never raises |
| EncodedData.BadLeadByteRaises | encoded_data.py:15-18 | a payload whose first byte starts no UTF-8 character (0x80-0xC1, 0xF5-0xFF) makes both decodes of the debug print fail |
| EncodedData.ExtractFromOffset | encoded_data.py:19-25 | extracting from field `i` is `Ok` iff every kept field from `i` has at least one byte, and then it yields the kept fields read from their byte offsets |
| EncodedData.ExtractSucceedsIff | encoded_data.py:19-25 | the field loop succeeds iff the layout is well formed for the data, and it then yields the reference values `KeptValues` |
| EncodedData.KeptValuesLength | encoded_data.py:21-25 | one value per kept field |
| EncodedData.ExtractLength | encoded_data.py:19-25 | a successful extraction returns as many values as there are `True` flags |
| EncodedData.FieldBytes | encoded_data.py:20 | a field never takes more bytes than its declared width |
| EncodedData.Reverse | encoded_data.py:24 | byte-pair reversal puts byte `k` at position `n-1-k` |
| EncodedData.ReversedIsLittleEndian | encoded_data.py:23-25 | reading the reversed bytes as hex is the little-endian value of the field |
| EncodedData.BigEndianBound | encoded_data.py:25 | an `n`-byte field read as hex is below `256^n` |
| EncodedData.FieldValueBound | encoded_data.py:20-25 | a field value is below 256 to the power of its width, reversed or not |
| EncodedData.ExtractEncodeRoundTrip | encoded_data.py:19-25 | extracting values that were encoded into fields of their widths returns the kept values unchanged |
| EncodedData.ExtractEncodeFrom | encoded_data.py:19-25 | the same round trip from any field index on |
| EncodedData.SkipsHeader | encoded_data.py:5-6 | the three unkept leading fields of 6, 12 and 3 bytes move extraction to byte 21 |
| EncodedData.ReadsHumidity | encoded_data.py:5-6 | field 3 is the single byte at byte 21, read big-endian |
| EncodedData.ReadsTemperature | encoded_data.py:5-6 | field 4 is two bytes little-endian, one byte if only one is left, and an error if none is |
| EncodedData.ReadsTail | encoded_data.py:5-6 | from byte 21: humidity then temperature, or which field runs out of bytes |
| EncodedData.ElaRhtLayout | encoded_data.py:5-6 | 21 bytes or fewer raise at field 3, 22 bytes raise at field 4, 23 or more give [byte 21, temperature raw value] |
| EncodedData.ElaRhtFields | encoded_data.py:4-7 | the ELA RHT layout: humidity is byte 21; temperature is the little-endian word at bytes 22-23 divided by 100, so between 0 and 655.35; payloads of 21 or 22 bytes raise |
| EncodedData.ExtractElaRht | encoded_data.py:4-27 | a payload the debug print rejects raises `NotUtf8`; any other is read by the layout, and a reading always comes from bytes 21-23 |
| EncodedData.ElaRhtIgnoresHeader | encoded_data.py:5-7 | the layout reads two payloads that agree from byte 21 on alike |
| EncodedData.DebugPrintCounterexample | encoded_data.py:15-18 | a 24-byte payload starting 0xFF raises in the debug print, while the same payload starting with "A" is read, although the layout reads both alike |
| Readings.Collect | hive_data.py:32 | a tuple of attributes is built iff none is unassigned; otherwise the first unassigned one is named in the error |
| Readings.HiveData.constructor | hive_data.py:17-19 | the live constructor sets only the hive number and temperature 1 |
| Readings.HiveData.SetTime | hive_data.py:21-22 | only the time changes |
| Readings.HiveData.IsMoreRecentVersionOf | hive_data.py:24-26 | true iff same hive and strictly later time; an unset time on either side raises |
| Readings.HiveData.GetData | hive_data.py:29-32 | `temperature_2` unset raises; `None` gives the three-tuple; otherwise the eleven-tuple in column order; each succeeds iff its attributes are all set |
| Readings.WeatherStationData.constructor | hive_data.py:38-40 | humidity and temperature set, serial number unset |
| Readings.WeatherStationData.SetSerialNumber | hive_data.py:42-43 | only the serial number changes |
| Readings.WeatherStationData.GetData | hive_data.py:45-46 | (serial, humidity, temperature) once the serial is set; raises before |
| Readings.RecencyIrreflexive | hive_data.py:24-26 | a reading is never more recent than itself |
| Readings.RecencyAsymmetric | hive_data.py:24-26 | at most one of two readings is the more recent version of the other |
| Readings.RecencyTransitive | hive_data.py:24-26 | recency chains |
| Readings.RecencyNeedsSameHive | hive_data.py:24-26 | readings of different hives are never versions of each other |
| Readings.FreshHiveCannotReport | hive_data.py:17-32 | a hive reading fresh from the live constructor cannot be reported: `get_data` raises |
| DataStore.DaysInMonth | database.py:46 | every month has between 28 and 31 days |
| DataStore.DaysBeforeYearCounts | database.py:46 | the closed Gregorian formula equals the count of days of all earlier years |
| DataStore.DaysBeforeMonthCounts | database.py:46 | the month table equals the count of days of the earlier months |
| DataStore.EpochCountsDays | database.py:46 | `timegm` is 86400 times the number of days between 1970-01-01 and the date, plus the seconds of the day |
| DataStore.EpochOrigin | database.py:46 | 1970-01-01 00:00:00 is 0 and one second earlier is -1 |
| DataStore.FieldsWeather | database.py:50-53 | the field loop fails only with an empty `Tags`, a missing `Data` or a decode error |
| DataStore.RecordRow | database.py:44-60 | a record fails only on its date or its fields; its row carries the uplink's serial and the record's sequence number |
| DataStore.ReadFields | database.py:49-53 | the field loop returns exactly `FieldsWeather` |
| DataStore.FieldsWeatherOk | database.py:50-53 | the field loop succeeds iff every field reads without error |
| DataStore.UntaggedKeepsReading | database.py:49-53 | fields without `Tags` leave the reading unchanged |
| DataStore.LastTagWins | database.py:50-53 | the reading kept is the one of the last tagged field |
| DataStore.RecordWithoutTagsSkipped | database.py:55-56 | a record with no tagged field gives no row, and ingestion continues |
| DataStore.RecordRowFromLastTag | database.py:44-60 | a decodable record's row is (SerNo, SeqNo, epoch, temperature, humidity, seven zeros) from its last tagged field |
| DataStore.ProcessKeepsRows | database.py:58-61 | rows already stored are never changed or removed |
| DataStore.ProcessNewRows | database.py:43-61 | every new row is the row of some record, stored under (SerNo, SeqNo) |
| DataStore.ProcessRowCount | database.py:43-61 | at most one row is added per record |
| DataStore.ProcessCompletes | database.py:43-61 | an uplink that ends without error has stored, for every record that has a row, exactly that row under its key, and that key was new |
| DataStore.DuplicateStops | database.py:58-61 | a record whose key is already stored ends ingestion with an error |
| DataStore.HeldLockFreezesTable | database.py:58-62 | while the lock is held no row is written, and a call finishes only if no record reaches the insert |
| DataStore.LockLeaksOnDuplicate | database.py:58-62 | starting with the lock free, ingestion never waits, and it leaves the lock held iff a duplicate key stopped it |
| DataStore.OneTagRecordReads | database.py:44-60 | a dated record with one tag of at least 23 bytes, which the debug print accepts, yields a row |
| DataStore.LockLeakCounterexample | database.py:58-62 | after a re-sent record, the next record with a reading waits forever; with the lock released it is stored |
| DataStore.Database.constructor | database.py:17-35 | the table holds what the file held, and the lock is free |
| DataStore.Database.ProcessData | database.py:41-62 | the new table, lock state and error are exactly `ProcessFrom` of the old ones |
| DataStore.Database.ProcessDataCorrected | database.py:58-62 | with the lock released in every case, ingestion never deadlocks and the lock stays free |
| DataStore.Database.FetchData | database.py:64-76 | an unknown column gives `{}`; otherwise each stored row with time strictly after the start appears exactly once, every returned time is after the start, and `Time` and the column are aligned and of equal length |
| DataStore.ColumnOf | database.py:71-74 | the requested column of each row, one entry per row in the order the rows come back |
| DataStore.Twice | database.py:70-74 | asking for `Time` itself gives each time twice in a row in one list, since both appends go to the same key; no other value appears |
| DataStore.SelectionSnoc | database.py:71-74 | one more row appends one entry to each list |
| DataStore.SelectionShape | database.py:69-74 | the result has the `Time` list and the field's list, of equal length, and holds only times after the start |
| Logins.First | login_database.py:63-66 | `fetchone` returns the first matching row, or none when nothing matches |
| Logins.Filter | login_database.py:250-256 | `fetchall` and `DELETE` keep exactly the matching rows, never more rows than there were |
| Logins.FilterAppend | login_database.py:250-256 | filtering a table made of two parts gives the two parts' results joined, so the kept rows stay in table order |
| Logins.FilterSingle | login_database.py:250-256 | a single row is kept iff it matches |
| Logins.FilterKeepsUnique | login_database.py:26-52 | deleting rows keeps a primary key unique |
| Logins.AppendKeepsUnique | login_database.py:26-52 | inserting a row with a new key keeps the primary key unique |
| Logins.SerialColumn | login_database.py:198-201 | a one-column `SELECT serial_number` gives one serial per selected row, in order |
| Logins.UserById | login_database.py:58-66 | the user with this id, or none iff nobody has it |
| Logins.UserByEmail | login_database.py:68-75 | the first user registered with this email, or none iff nobody has it |
| Logins.EmailLookupKeepsFirst | iBuzz/tests.py:15-23 | a second account with the same email does not change what the email lookup returns |
| Logins.EveryoneGrantsIgnored | login_database.py:185-193 | for any user other than `'ALL'`, the check gives the same answer with every grant to `'ALL'` deleted: such a grant admits nobody |
| Logins.CorrectedCheckExtends | login_database.py:137-145 | the corrected check admits everyone the as-written one does, and more only through a grant to `'ALL'`; it admits exactly the owner and the users with a grant of the serial to them or to `'ALL'` |
| Logins.OneOwnerPerSerial | login_database.py:33-37 | under the primary key, two users who both own a serial are the same user |
| Logins.LoginDatabase.CheckHawkOwnership | login_database.py:127-135 | with the keys unique, a user who owns the serial is the user `fetch_hawk_owner` finds for it |
| Logins.LeastOwnedSerial | login_database.py:200-201 | the `fetchone` of the user's ownership rows gives an owned serial no larger than any other the user owns (the table's rowid is its serial); none iff the user owns none |
| Logins.VisibleSerials | login_database.py:195-205 | a serial is listed iff it is granted to the user or to `'ALL'`, or it is the user's least owned serial |
| Logins.VisibleSerialsCorrected | login_database.py:195-205 | a serial is listed iff the corrected check admits the user |
| Logins.AllGrantListedButRefused | login_database.py:185-205 | a serial granted to `'ALL'` is listed for a guest whom the check refuses |
| Logins.VisibleSerialsViewable | login_database.py:195-205 | every listed serial passes the corrected check |
| Logins.SecondOwnedSerialNotListed | login_database.py:200-204 | an owner who registered hawk 9 and then hawk 3 is shown only hawk 3, although the check admits hawk 9 |
| Logins.RulesFor | login_database.py:243-258 | the rules of the serial when one is given, else of the user; `ValueError` iff neither is given |
| Logins.HawkOwner | login_database.py:260-264 | no ownership row for the serial raises `TypeError`; otherwise the `fetch_user` lookup of the owner's id, which under the primary key is the one owner |
| Logins.RegisteredHawkOwner | login_database.py:100-110 | after registering a free serial, `fetch_hawk_owner` of it finds the registering user |
| Logins.WithoutOwnership | login_database.py:122-124 | the ownership row is deleted, all others stay, and the key stays unique |
| Logins.WithoutGrant | login_database.py:169-171 | that one grant is deleted, all others stay |
| Logins.WithoutSerial | login_database.py:181-183 | every grant of the serial is deleted, all others stay |
| Logins.WithoutRule | login_database.py:237-238 | the rule with that id is deleted, all others stay |
| Logins.DeregisterLeavesGrants | login_database.py:120-125 | as written, an owner's deregistration gives up the hawk, raises, and leaves every grant of it |
| Logins.DeregisterCorrected | login_database.py:112-125 | a non-owner is refused; an owner loses the hawk and all its grants, and nothing is raised |
| Logins.DeregisterCounterexample | login_database.py:112-125 | owner "u" shares hawk 5 with "v": as written "v" keeps the grant, corrected it is gone |
| Logins.LoginDatabase.constructor | login_database.py:21-52 | the tables hold the stored rows, and every primary key is unique |
| Logins.LoginDatabase.CheckUniqueUserId | login_database.py:93-98 | true iff no user has this id |
| Logins.LoginDatabase.AddUser | login_database.py:77-91 | the first unused candidate id is taken and the user is appended; a repeated email is accepted |
| Logins.LoginDatabase.RegisterHawk | login_database.py:100-110 | an owned serial raises `IntegrityError` with nothing changed; otherwise the ownership is appended |
| Logins.LoginDatabase.DeregisterHawk | login_database.py:112-125 | the tables and error are exactly `Deregister`, the code as written |
| Logins.LoginDatabase.DeregisterHawkCorrected | login_database.py:112-125 | the tables and error are exactly `DeregisterCorrected` |
| Logins.LoginDatabase.AddHawkVisibility | login_database.py:137-157 | a non-owner raises `PermissionError`, an unknown target other than `'ALL'` raises `ValueError`, and a repeated grant changes nothing |
| Logins.LoginDatabase.RemoveHawkVisibility | login_database.py:159-171 | a non-owner is refused; otherwise only that grant goes, so removing `'ALL'` keeps the single-user grants |
| Logins.LoginDatabase.RemoveAllHawkVisibility | login_database.py:173-183 | a non-owner is refused; otherwise every grant of the serial goes |
| Logins.LoginDatabase.AddNotification | login_database.py:207-222 | a non-owner raises; a bad sign returns without storing or raising; otherwise a rule with a fresh id is appended |
| Logins.LoginDatabase.AddNotificationCorrected | login_database.py:207-216 | a bad sign raises `ValueError`; a call that returns normally has always stored a rule |
| Logins.LoginDatabase.RemoveNotification | login_database.py:224-241 | an unknown id changes nothing; the rule's user deletes it; anyone else gets `PermissionError` |
| Alerts.Decide | notifications.py:70-75 | a rule fires iff the reading crossed its threshold in the sign's direction since the previous reading; comparing `None` raises |
| Alerts.SteadyReadingNeverFires | notifications.py:70-75 | an unchanged reading never fires |
| Alerts.SensorValues | notifications.py:34-68 | the eleven known sensor names select the matching current and previous attributes; other names skip the rule |
| Alerts.RuleAlert | notifications.py:30-75 | an unknown sensor gives no mail; an unset attribute raises `AttributeError` and a missing user raises; otherwise a mail iff the reading crossed the threshold in the sign's direction, to the user's address, with subject "iBuzz ALERT <sensor>", the reading, the threshold and the direction |
| Alerts.EvaluateRule | notifications.py:30-75 | one loop pass (fetch the rule's user, dispatch on the sensor, compare) yields exactly `RuleAlert` of the rule, its user and the dispatched values |
| Alerts.Outcomes | notifications.py:29-75 | one outcome per rule, in rule order, each the rule's `RuleAlert` with its user and dispatched values |
| Alerts.AtMostOneAlertPerRule | notifications.py:29-75 | mailing in rule order sends at most one mail per rule, and mails already sent stay sent |
| Alerts.AlertsComeFromFiringRules | notifications.py:29-75 | every mail is the alert of a rule of the list that fired, so it goes to that rule's user with subject "iBuzz ALERT " and the sensor name |
| Alerts.FiredFrom | notifications.py:29-75 | the alerts among the outcomes, in order, at most one per outcome, each one an outcome's alert |
| Alerts.Fired | notifications.py:29-75 | the firing rules' alerts in rule order, at most one per rule, each one the `RuleAlert` of some rule |
| Alerts.SendIsFiredPrefix | notifications.py:29-75 | mailing in rule order from any rule on sends a prefix of the firing alerts after the mail already sent, all of them when no rule raises |
| Alerts.AlertsAreFiredPrefix | notifications.py:29-75 | the mails sent are the firing rules' alerts in rule order, cut short where a rule raises, and all of them when none does |
| Alerts.EvaluateRules | notifications.py:29-75 | the loop's mails and error are exactly `AlertsFrom`; the mails are a prefix of `Fired`, and all of it when nothing raises |
| Alerts.HiveNumberIrrelevant | notifications.py:31-75 | a rule's hive number never decides whether it fires |
| Alerts.NoRulesNoAlerts | notifications.py:27-28 | no rules means no mail and no error |
| Alerts.Notifications.constructor | notifications.py:7-12 | the service keeps its login database |
| Alerts.Notifications.Evaluate | notifications.py:23-75 | an unset serial raises; otherwise the mails and error are exactly `AlertsFrom` over the serial's rules in order, and when nothing raises the mails are exactly the firing rules' alerts |
| Replay.Directory | replay_log.py:15 | exactly one `/` follows the folder |
| Replay.LogPath | replay_log.py:15 | the path is the folder and the name, and ends in `.txt`, which is added only when missing |
| Replay.SuffixNeverDoubled | replay_log.py:15 | a name with and without `.txt` names the same log |
| Replay.Appended | replay_log.py:17-18 | the log gets the text appended, starting empty when new; every other file is unchanged |
| Replay.ReplayLog.constructor | replay_log.py:5-8 | the folder is created only when missing; files are untouched |
| Replay.ReplayLog.AddToLog | replay_log.py:10-20 | a text name appends to its log; a non-string name or a failed open changes nothing and never raises |

## Left out

- Base64 decoding (RFC 4648, section 4) and the debug prints of the payload in base64 and hex (encoded_data.py:11-13, 26). Payloads are given as bytes already decoded. Of the print as UTF-8 text (encoded_data.py:15-18), only whether it raises is modelled; the console's own encoding of the printed text is not.
- `print` output everywhere, and the `print(e)` of swallowed exceptions.
- The thread started per uplink by `data_received` (database.py:37-39). Ingestion is one sequential call. The lock is a boolean on the table. The code makes it a class attribute, shared by every `Database` object; the model keeps one per object.
- SQLite itself: files, schema creation, connections, cursors and `close`. Tables are Dafny values.
- `strptime` parsing (database.py:46). The date fields arrive parsed, and a malformed date is one that `ValidDate` rejects (`BadDate`).
- DataStore.Database.FetchData: the order of the returned rows is SQLite's and is not specified. The ghost `order` names it, and `end_time` and `time.time()` are unused by the code.
- SMTP: connecting, logging in and sending (notifications.py:7-20), and the body text of the mails. An `Alert` records the facts that the body reports.
- Password hashing (login_database.py:9-14). The hash is a parameter of `AddUser`.
- `uuid4` ids. They are supplied as a sequence of candidates, which is assumed to contain an unused one.
- Logins.LoginDatabase.RegisterHawk: the `int()` conversion of the serial (`ValueError`) is not modelled. Serials are `int`, and rule thresholds are `real` for the same reason (`float(value)`).
- Floating point: readings and thresholds are exact reals.
- The ten-argument `HiveData` constructor (hive_data.py:5-15). The second `__init__` replaces it, so it can never run; `FreshHiveCannotReport` shows what that costs.
- Logins.VisibleSerials: the order of the granted serials is SQLite's and is not specified; only membership is stated.
- Logins.VisibleSerials: the list mixes one-element row tuples with the bare owned serial. The model lists plain integers.
- Replay.ReplayLog.constructor: a failing `mkdir` is not modelled.
- Replay.ReplayLog.AddToLog: whether the operating system lets the file open is the parameter `canOpen`.
- `main.py` and the web front end are not part of this model.

## Findings

| source | as written | input that shows it | evidently intended | confidence | as-written member | corrected member |
|---|---|---|---|---|---|---|
| login_database.py:120-125 | the ownership row is deleted before `remove_all_hawk_visibility` runs, and that call checks ownership again and raises `PermissionError`, so the hawk's grants stay | user "u" owns hawk 5 and has granted it to "v"; `deregister_hawk("u", 5)` raises and the grant ("v", 5) remains | remove the grants while the caller still owns the hawk, then the ownership, without raising (docstring, line 115) | high, not executed | Logins.DeregisterLeavesGrants | Logins.DeregisterCorrected |
| login_database.py:190-192 | the second query compares `serial_number` with `'ALL'` instead of `user_id`, so a grant to `'ALL'` never admits anyone | "owner" owns hawk 7 and grants it to `'ALL'`; `check_visibility_permissions("guest", 7)` is False while `fetch_visible_serial_numbers("guest")` lists 7 | a grant to `'ALL'` gives universal visibility (line 140) | medium, not executed | Logins.AllGrantListedButRefused | Logins.CorrectedCheckExtends |
| login_database.py:200-204 | `fetchone` adds only one owned serial to the list, the least, since the ownership scan runs by serial | "owner" registers hawk 9, then hawk 3, and has no grants; the list is [3] | every serial the user may view, owned ones included (docstring, line 196) | medium, not executed | Logins.SecondOwnedSerialNotListed | Logins.VisibleSerialsCorrected |
| login_database.py:215-216 | `return ValueError` returns the exception class instead of raising it | `add_notification` by the owner with sign "=" returns normally and stores nothing | raise `ValueError` (docstring, line 211) | high, not executed | Logins.LoginDatabase.AddNotification | Logins.LoginDatabase.AddNotificationCorrected |
| database.py:58-62 | the lock is released only after a successful insert; a duplicate key raises with the lock held | table holds (7, 1); hawk 7 re-sends record 1, then sends record 2; the insert of record 2 waits forever | release the lock whatever the insert does (`try`/`finally`) | high, not executed | DataStore.LockLeakCounterexample | DataStore.Database.ProcessDataCorrected |
| encoded_data.py:15-18 | the fallback of the debug print decodes the first four bytes as UTF-8 outside any handler, so a payload that is not text raises and ends the uplink | a 24-byte ELA RHT payload starting 0xFF, followed by zeros | the debug print never affects decoding (the `try` around it) | medium, not executed | EncodedData.DebugPrintCounterexample | EncodedData.ElaRhtFields |
