# Models of the LiFi/WiFi key distribution and of the daemons it runs on

This project models the parts of the repository that keep state across many steps, and proves what they keep.
`dafny verify dfyconfig.toml` checks the whole project.

## What is modelled

* **The PTK commit protocol** (`PtkCommit`, `PtkCommitSafety`, `PtkCommitTheorems`). The LiFi AP drives
  SYNC, READY, INSTALL and OK over one TCP connection per session; the STA hands the key to its WiFi daemon first and
  the AP follows after OK. The AP loop, the STA sync thread, the STA main loop and the watchdogs are interleaved step
  by step; any receive may time out or fail, any send may fail, connections may be refused, and the STA may still be
  serving a connection that the AP gave up long ago.
* **The rekey watchdog** (`Watchdog`) that both sides run against the trigger file, and what it makes of the sessions
  (`RekeyRound`).
* **Passphrase distribution** (`Passphrase`): `setptk` is only issued after an acknowledgement with the right hash.
* **The BSS table of wpa_supplicant** (`BssModel`, `BssInvariant`, `BssRuns`, `BssTheorems`, `BssWorks`, `BssTable`):
  two lists, an id counter, the index of the current round, eviction at a limit, expiry by miss counts, and pointers into the table
  that must follow an entry when reallocation moves it. Memory is explicit: a map from addresses to entries.
* **The priority lists of networks** (`StableSort`, `PrioList`): linked-list surgery that amounts to a stable sort.
* **The BSSID ignore list** (`IgnoreModel`, `IgnoreList`): purged lazily, compared with an eager record per BSSID.
* **Round-robin searches** (`RoundRobin`, `GsmTriplets`, `BgscanProbe`): GSM triplets and background scan probes.
* **What the learning background scan learns** (`LearnModel`, `BgscanLearn`), and its data file.
* **AKA sequence numbers** (`Sqn`), Annex C.3.2 of 3GPP TS 33.102.
* **Vendor elements** (`VendorIe`), in the format of section 9.4.2.1 of IEEE Std 802.11-2016.
* **Lists in configuration text** (`ConfigText`, `FreqText`, `FreqList`, `AddrText`, `AddrList`, `ZeroTerminated`).

A class stands where the source changes an object in place; its methods are proved against functions on values, and
the theorems are about those functions. The two protocols are step systems on values, because what matters there is
the interleaving of processes and not the code of one of them.

## Where the code and its promises differ

The model follows the code. These are proved, each with a concrete run or as one side of an exact condition:

* `README.md:55` promises that the two-phase commit lets both interfaces switch atomically and prevents any mismatch
  window. (a) Both sides run a sender script that exits with status 0 after giving up (`send_ptk_ap.py:90`,
  `send_ptk_sta.py:90`), and the AP ignores the result of its own (`ptk_receiver_ap.py:216`): if exactly one of the two
  delivers and the one of the AP comes back, the split is silent and both watchdogs accept it; there is no other silent
  one (`NoSilentSplit`, `ApSenderSplitsSilently`, `StaSenderSplitsSilently`, `SilentSplitEscapes`). (b) The STA main loop may replace
  the pending key between SYNC and INSTALL (`ptk_receiver_sta.py:290-292`): the two sides then end with different keys
  (`OverwriteSplitsKeys`); agreement needs the hypothesis of `KeyAgreement`. (c) The AP may time out and disconnect
  before the STA installs (`LateInstallAfterDisconnect`); `WhenTheDisconnectComes` says exactly when.
* The AP takes a passphrase of up to 64 octets (`system_manager.py`), the daemon of the STA one of up to 63, and neither
  the daemon nor `wpa_cli` (`wpa_cli.c:228-260`, `ctrl_iface.c:11465-11479`) reports the refusal: with 64 octets `setptk`
  is issued for a passphrase that the STA does not have (`PassphraseAgreement`, `LongPassphraseIsNotApplied`). A
  passphrase that starts with a dash is parsed as an option by `wpa_cli` and never sent; with `-v`, which exits with
  status 0, `setptk` is issued all the same (`OptionIsNotApplied`).
* `wpa_bssid_ignore_del` does not purge, so it can report an entry that every other call has forgotten
  (`RemoveShowsUnpurged`, `RemoveFindsOldEntry`).
* `wpa_bss_update_pending_connect` looks only at the first kind of connect work that is pending, and `sme_authenticate`
  queues an sme-connect beside a connect work (`sme.c:988-1031`). The second one goes astray exactly when its entry is
  removed or moved meanwhile (`DisplacesIs`, `ConnectFollowsOverRuns`, `SecondWorkDangles`).
* `wpa_bss_remove_oldest_unknown` does not check for use, so the current entry may be evicted and the pointer to it
  left dangling; `CurrentAfterNext` and `CurrentIsLiveExactlyWhen` say exactly when, and `CurrentDangles` shows a run.
  What is then read through it is arbitrary in the model.
* `bss_max_count` can be lowered while the table is full (`config.c:5174`); each new entry then replaces one, and the
  table stays over its limit (`NumAfterNext`).
* A learned BSS with the frequency 0 hides what stands behind it in the scan list, the probe included (`ProbeIsSeen`).
* Frequency lists are cut at ten characters per element, which ten-digit numbers exceed (`ReadBackExactlyWhen`).
* The data file of the background scan is not searched for duplicate BSS lines (`LoadIsSoundExactlyWhen`,
  `DuplicateLinesLoadTwice`).
* `hlr_auc_gw.c:1037` accepts an IND length of 31 and 32, for which the shift of an `int` at line 727 is undefined;
  `IncSqn` says that a step is defined exactly up to 30.

## Model

| member | source | states |
|---|---|---|
| `PtkCommitTheorems.NoSilentSplit` | LiFi_link/hostapd-2.10-lifi/scripts/ptk_receiver_ap.py:170-229 | In every run, once both sides have finished a session, one side switched keys without the other and nobody disconnected **if and only if** both ran their sender, that of the AP came back without an exception, and exactly one of the two delivered, whatever they reported |
| `PtkCommitTheorems.NoSilentSplitIfSuccessDelivers` | LiFi_link/hostapd-2.10-lifi/scripts/ptk_receiver_ap.py:198-219 | If a sender that reports success has delivered, such a split is there **if and only if** the forward of the AP, whose result it ignores, failed without delivering |
| `PtkCommitTheorems.ApSenderSplitsSilently` | WiFi_link/system_manager/send_ptk_ap.py:78-90 | A run in which the sender of the AP, with any report but an exception, delivers nothing and the session ends in a silent split |
| `PtkCommitTheorems.StaSenderSplitsSilently` | WiFi_link/system_manager/send_ptk_sta.py:78-90 | A run in which the sender of the STA exits with status 0 without delivering, the STA answers OK, and the AP alone switches |
| `PtkCommitTheorems.SilentSplitIsStamped` | LiFi_link/hostapd-2.10-lifi/scripts/ptk_receiver_ap.py:216-219 | After such a split both sides have stamped the session as installed |
| `RekeyRound.SilentSplitEscapes` | LiFi_link/hostapd-2.10-lifi/scripts/ptk_receiver_ap.py:87-120 | If the trigger of the round comes before the stamp and its timeout after it, the watchdog of either side gives one verdict on that trigger, and it is not to disconnect |
| `RekeyRound.WatchdogSeesSessions` | LiFi_link/wpa_supplicant-2.10-lifi/scripts/ptk_receiver_sta.py:76-109 | In a timed run, the watchdog of a side disconnects **if and only if** that side stamped no session from the trigger up to the poll and was not started in that time |
| `RekeyRound.StampStep` | LiFi_link/wpa_supplicant-2.10-lifi/scripts/ptk_receiver_sta.py:228-239 | Each side stamps only the session it works on, once and for good |
| `PtkCommitTheorems.FailuresDisconnect` | LiFi_link/hostapd-2.10-lifi/scripts/ptk_receiver_ap.py:260-269 | A finished AP session is stamped as installed or has disconnected, never both; a stamp implies that the AP received the OK and the STA ran its sender; a STA that sent READY disconnects exactly when it did not get its OK out; a STA that ran its sender without getting its OK out disconnects; an OK implies that the sender reported success |
| `PtkCommitTheorems.WhenTheDisconnectComes` | LiFi_link/wpa_supplicant-2.10-lifi/scripts/ptk_receiver_sta.py:216-255 | For a session that delivered to one side only, no disconnect follows the attempt of the STA **if and only if** the split is silent or the AP had given up before the attempt and the STA still sent its OK |
| `PtkCommitTheorems.ApForwardFollowsSta` | LiFi_link/wpa_supplicant-2.10-lifi/scripts/ptk_receiver_sta.py:196-248 | Before every attempt of the AP for k the STA made one that reported success, in the same session, with no other one between and with the SYNC for k as the last one before it; it was of k **if and only if** the STA main loop stored nothing since that SYNC, or stored k last; the WiFi daemon of the STA then has that key if the attempt delivered, and else the key it got before |
| `PtkCommitTheorems.KeyAgreement` | LiFi_link/wpa_supplicant-2.10-lifi/scripts/ptk_receiver_sta.py:187-248 | In runs where every PTK stored during an open session for k is k, the last attempt of the STA before one of the AP for k was of k, in that session, across any number of failed, timed-out or abandoned sessions; so the daemon of the STA has k **if and only if** that attempt delivered or it had k before |
| `PtkCommitTheorems.KeyAgreementIfSuccessDelivers` | LiFi_link/wpa_supplicant-2.10-lifi/scripts/ptk_receiver_sta.py:129-156 | If a sender that reports success has delivered, it has k |
| `PtkCommitTheorems.Settled` | LiFi_link/hostapd-2.10-lifi/scripts/ptk_receiver_ap.py:236-275 | When every session is over, each side has the key that the session of the latest delivery gave it, or else the key from before the attempt of the STA in that session; and that session dropped the link after its delivery **unless** it was silent, or the STA installed late and still sent its OK |
| `PtkCommitTheorems.ApartExactlyWhen` | LiFi_link/hostapd-2.10-lifi/scripts/ptk_receiver_ap.py:236-275 | The sides then have different keys and that session did not drop the link **if and only if** it was silent or installed late, and either it delivered two different keys, or the one key it delivered differs from the older key of the other side |
| `PtkCommitTheorems.AgreedOrDisconnected` | LiFi_link/hostapd-2.10-lifi/scripts/ptk_receiver_ap.py:236-275 | With matching stores, and success meaning delivery in that session, both sides have the same key or it dropped the link, **except exactly** where the AP ignored the failure of its sender or the STA installed after the AP had given up, and the older key of the AP was another one |
| `PtkCommitTheorems.MatchingStoresKeepKey` | LiFi_link/wpa_supplicant-2.10-lifi/scripts/ptk_receiver_sta.py:290-292 | A matching store in an open session never replaces the key of the session by another |
| `PtkCommitTheorems.OverwriteSplitsKeys` | LiFi_link/wpa_supplicant-2.10-lifi/scripts/ptk_receiver_sta.py:228-233 | A run in which the STA main loop overwrites the pending key after SYNC, and the two sides end with different keys silently |
| `PtkCommitTheorems.LateInstallAfterDisconnect` | LiFi_link/wpa_supplicant-2.10-lifi/scripts/ptk_receiver_sta.py:226-239 | A run in which the AP times out and disconnects first and the STA installs afterwards with no disconnect left to come |
| `PtkCommitSafety.RunKeepsInv` | LiFi_link/wpa_supplicant-2.10-lifi/scripts/ptk_receiver_sta.py:159-299 | After every run the phases, message streams, forwards, stamps, disconnects and the event log of all sessions agree |
| `PtkCommitSafety.NextKeepsInv` | LiFi_link/hostapd-2.10-lifi/scripts/ptk_receiver_ap.py:236-275 | Every step of the AP loop, the STA sync thread, the STA main loop or a watchdog keeps that invariant |
| `PtkCommitSafety.ApStepKeepsSession` | LiFi_link/hostapd-2.10-lifi/scripts/ptk_receiver_ap.py:183-229 | Every step of the AP inside a session keeps the invariant of the session |
| `PtkCommitSafety.StaStepKeepsSession` | LiFi_link/wpa_supplicant-2.10-lifi/scripts/ptk_receiver_sta.py:180-258 | Every step of the STA inside a session keeps the invariant of the session |
| `PtkCommit.ApNext` | LiFi_link/hostapd-2.10-lifi/scripts/ptk_receiver_ap.py:182-229 | A step of the AP leaves everything the STA sent and did alone and ends the session only with its last step |
| `PtkCommit.StaNext` | LiFi_link/wpa_supplicant-2.10-lifi/scripts/ptk_receiver_sta.py:182-258 | A step of the STA leaves everything the AP sent, received and did alone |
| `Watchdog.Watcher.Watch` | LiFi_link/wpa_supplicant-2.10-lifi/scripts/ptk_receiver_sta.py:83-109 | The loop gives at each poll the verdict that the history of the earlier polls determines |
| `Watchdog.VerdictAtFirstDue` | LiFi_link/hostapd-2.10-lifi/scripts/ptk_receiver_ap.py:104-114 | A trigger gets a verdict at a poll **if and only if** this is the first poll that finds it in the file with its timeout passed; so at most one |
| `Watchdog.DisconnectIffNoInstall` | LiFi_link/hostapd-2.10-lifi/scripts/ptk_receiver_ap.py:111-120 | The verdict is to disconnect **if and only if** no install was stamped from the trigger up to the poll |
| `Watchdog.TimelyVerdict` | LiFi_link/wpa_supplicant-2.10-lifi/scripts/ptk_receiver_sta.py:85-109 | With triggers at least timeout + gap apart and polls at most gap apart, each trigger gets exactly one verdict, before trigger + timeout + gap |
| `Watchdog.LastHandledIsDue` | LiFi_link/wpa_supplicant-2.10-lifi/scripts/ptk_receiver_sta.py:93-103 | The remembered trigger was due at an earlier poll and no newer one was |
| `Passphrase.SetPtkFollowsCommand` | LiFi_link/hostapd-2.10-lifi/scripts/system_manager.py:176-199 | In every run, whenever the AP issues setptk p, the latest command of the STA to its daemon was for p stripped of surrounding whitespace and reported success, with equal hashes; the daemon has that passphrase **if and only if** it executed the command or had the same one before |
| `Passphrase.PassphraseAgreement` | LiFi_link/wpa_supplicant-2.10-lifi/scripts/sta_passphrase.py:99-130 | With an injective hash and a daemon that executes what it is sent and what fits, the daemon of the STA has exactly p whenever the AP issues setptk p **if and only if** p is shorter than 64 octets and is not taken for an option; also after AP timeouts with a backlog at the STA |
| `Passphrase.OptionIsNotApplied` | LiFi_link/wpa_supplicant-2.10-lifi/wpa_supplicant/wpa_cli.c:4984-5005 | A run in which the passphrase -v is acknowledged and setptk issued, and the STA has none |
| `Passphrase.LongPassphraseIsNotApplied` | LiFi_link/wpa_supplicant-2.10-lifi/src/rsn_supp/wpa.c:40-51 | A run in which a passphrase of 64 octets is acknowledged and setptk issued, and the STA has none |
| `Passphrase.RunKeepsInv` | LiFi_link/hostapd-2.10-lifi/scripts/system_manager.py:138-199 | Only the latest connection is open, the STA works through the connections in order, and an acknowledgement is only pending for what was applied last |
| `Passphrase.NextKeepsInv` | LiFi_link/wpa_supplicant-2.10-lifi/scripts/sta_passphrase.py:99-134 | Every step of either side keeps that invariant |
| `BssRuns.RunKeepsInv` | LiFi_link/wpa_supplicant-2.10-lifi/wpa_supplicant/bss.c:186-991 | After any sequence of updates, removals, flushes, queued and finished connect works and changes of the limit: both lists hold exactly the live entries, num of them; ids increase along one and refresh rounds along the other; the index lists exactly the entries of this round, each once; a pending sme-connect work points to the entry it was queued for, wherever that has moved, or is NULL if it is gone |
| `BssRuns.NextKeepsInv` | LiFi_link/wpa_supplicant-2.10-lifi/wpa_supplicant/bss.c:186-991 | Every single operation keeps that invariant |
| `BssRuns.VictimIsLeastRecent` | LiFi_link/wpa_supplicant-2.10-lifi/wpa_supplicant/bss.c:396-434 | Eviction fails only if everything is known and in use; else it takes an unknown entry if there is one, then an idle one, and none of its kind was refreshed in an earlier round |
| `BssRuns.IdRangeIsSmallest` | LiFi_link/wpa_supplicant-2.10-lifi/wpa_supplicant/bss.c:1106-1115 | The range lookup returns the live entry with the smallest id in the range, and NULL exactly when there is none |
| `BssWorks.DisplacesIs` | LiFi_link/wpa_supplicant-2.10-lifi/wpa_supplicant/bss.c:186-991 | Conditions known before an operation say exactly whether it removes or moves an entry: removal of that entry; a result that evicts it as the first unknown or else the first idle one of a full table, or that outgrows it and is not put in place; the end of a round in which it reaches the threshold; flushing while it is idle; flushing by age if nothing recent and idle stands before it |
| `BssWorks.ConnectFollowsExactlyWhen` | LiFi_link/wpa_supplicant-2.10-lifi/wpa_supplicant/bss.c:186-208 | One operation leaves a connect work on its entry **unless** an sme-connect is pending and one of these conditions holds for the entry |
| `BssWorks.ConnectFollowsOverRuns` | LiFi_link/wpa_supplicant-2.10-lifi/wpa_supplicant/bss.c:186-208 | Over every run, a connect work has followed its entry since it was queued **if and only if** none of these conditions held for the entry while an sme-connect was pending |
| `BssWorks.NextKeepsConnect` | LiFi_link/wpa_supplicant-2.10-lifi/wpa_supplicant/bss.c:186-237 | While no sme-connect is pending, scan results, expiry, removal and flushing keep the connect work on its entry |
| `BssWorks.SecondWorkDangles` | LiFi_link/wpa_supplicant-2.10-lifi/wpa_supplicant/sme.c:988-1031 | A run in which an sme-connect is queued beside a connect work, an entry is removed, and the connect work points to freed memory |
| `BssWorks.CurrentDangles` | LiFi_link/wpa_supplicant-2.10-lifi/wpa_supplicant/bss.c:396-409 | A run in which a scan result evicts the current entry and leaves the pointer to it dangling |
| `BssTheorems.KeysStayDistinct` | LiFi_link/wpa_supplicant-2.10-lifi/wpa_supplicant/bss.c:248-261 | No two entries have the same BSSID and SSID, in every run whose scan results pass the BSSID filter |
| `BssTheorems.AtMostThreeInUse` | LiFi_link/wpa_supplicant-2.10-lifi/wpa_supplicant/bss.c:379-393 | With distinct keys and a current entry set, any four entries include one that is not in use |
| `BssTheorems.FullTableHasVictim` | LiFi_link/wpa_supplicant-2.10-lifi/wpa_supplicant/bss.c:412-434 | So a table of at least four entries can always evict |
| `BssTheorems.LimitAfterResult` | LiFi_link/wpa_supplicant-2.10-lifi/wpa_supplicant/bss.c:458-468 | A scan result changes the limit exactly when it adds an entry to a full table with nothing to evict: to one more than the number of entries before |
| `BssTheorems.NumAfterNext` | LiFi_link/wpa_supplicant-2.10-lifi/wpa_supplicant/bss.c:458-468 | No operation adds an entry beyond the limit: a table over its limit, because that was lowered, stays over it at most as far as it was |
| `BssTheorems.NumIsWithinLimit` | LiFi_link/wpa_supplicant-2.10-lifi/wpa_supplicant/bss.c:458-468 | In every run in which nobody sets the limit anew, num is within it |
| `BssTheorems.LimitIsKept` | LiFi_link/wpa_supplicant-2.10-lifi/wpa_supplicant/bss.c:458-468 | Over every run with accepted results, a current entry and a limit of at least four that nobody sets anew, the limit is never raised and num stays within it |
| `BssTheorems.CurrentAfterResult` | LiFi_link/wpa_supplicant-2.10-lifi/wpa_supplicant/bss.c:396-480 | A scan result leaves the current-entry pointer dangling **if and only if** it adds an entry to a full table in which the current entry is the first unknown one in refresh order; moves by reallocation keep the pointer on its entry |
| `BssTheorems.CurrentAfterNext` | LiFi_link/wpa_supplicant-2.10-lifi/wpa_supplicant/bss.c:379-991 | Any operation leaves the pointer dangling **if and only if** it is such a scan result or removes the current entry outright; expiry and flushing never do |
| `BssTheorems.CurrentIsLiveExactlyWhen` | LiFi_link/wpa_supplicant-2.10-lifi/wpa_supplicant/bss.c:186-991 | Over every run, the pointer has been live or NULL since it was set **if and only if** none of these has happened since |
| `BssTheorems.CurrentAfterUpdate` | LiFi_link/wpa_supplicant-2.10-lifi/wpa_supplicant/bss.c:685-709 | Refreshing keeps the current-entry pointer on the entry with the same id, wherever it moves |
| `BssTheorems.MissCountIsHistory` | LiFi_link/wpa_supplicant-2.10-lifi/wpa_supplicant/bss.c:896-916 | The stored miss count of every entry is the number of completed rounds since its last refresh that covered it while it was idle and not refreshed |
| `BssTheorems.MissCountBelowThreshold` | LiFi_link/wpa_supplicant-2.10-lifi/wpa_supplicant/bss.c:845-916 | For a threshold of at least one every stored miss count is below it, over every run |
| `BssTheorems.DroppedExactlyAtThreshold` | LiFi_link/wpa_supplicant-2.10-lifi/wpa_supplicant/bss.c:896-916 | The end of a round drops an entry **if and only if** it has now gone unrefreshed through exactly the threshold of counted rounds; never one refreshed in its own round |
| `BssTheorems.EndTreatsEach` | LiFi_link/wpa_supplicant-2.10-lifi/wpa_supplicant/bss.c:896-916 | The expiry loop settles each entry by itself, as it was before the loop |
| `BssTheorems.ResultTreatsEach` | LiFi_link/wpa_supplicant-2.10-lifi/wpa_supplicant/bss.c:748-842 | A scan result resets the entry it adds or refreshes and leaves every other entry that remains as it was |
| `BssTheorems.OthersKeepEntries` | LiFi_link/wpa_supplicant-2.10-lifi/wpa_supplicant/bss.c:896-991 | No operation but a scan result adds an entry or changes the id, BSSID, SSID or address of one |
| `BssInvariant.UpdateScanResKeepsInv` | LiFi_link/wpa_supplicant-2.10-lifi/wpa_supplicant/bss.c:748-842 | A scan result keeps the invariant: added with eviction, refreshed in place, moved, or a repeat in one round |
| `BssInvariant.ExpireFromIs` | LiFi_link/wpa_supplicant-2.10-lifi/wpa_supplicant/bss.c:896-916 | The expiry loop keeps the invariant, and each entry meets its own fate |
| `BssInvariant.FlushFromIs` | LiFi_link/wpa_supplicant-2.10-lifi/wpa_supplicant/bss.c:973-987 | Flushing leaves exactly the entries in use |
| `BssInvariant.FlushOldFromKeepsInv` | LiFi_link/wpa_supplicant-2.10-lifi/wpa_supplicant/bss.c:930-947 | Flushing by age keeps the invariant |
| `BssInvariant.FlushOldFromIs` | LiFi_link/wpa_supplicant-2.10-lifi/wpa_supplicant/bss.c:930-947 | Flushing by age removes exactly the idle entries older than the cutoff before which every entry is in use or older too |
| `BssInvariant.RemoveKeepsInv` | LiFi_link/wpa_supplicant-2.10-lifi/wpa_supplicant/bss.c:211-237 | Removal keeps the invariant |
| `BssInvariant.AddIsInsert` | LiFi_link/wpa_supplicant-2.10-lifi/wpa_supplicant/bss.c:437-480 | Adding is eviction in the table without the new entry, then linking the entry at the end of both lists |
| `BssInvariant.MovedKeepsInv` | LiFi_link/wpa_supplicant-2.10-lifi/wpa_supplicant/bss.c:660-717 | Refreshing an entry that moves in memory keeps both lists, the index and the pending pointer consistent |
| `BssTable.BssTable.Remove` | LiFi_link/wpa_supplicant-2.10-lifi/wpa_supplicant/bss.c:211-237 | In place: unlinks from the index, both lists and the heap and redirects the pending work |
| `BssTable.BssTable.Get` | LiFi_link/wpa_supplicant-2.10-lifi/wpa_supplicant/bss.c:248-261 | The first entry with this key, or NULL |
| `BssTable.BssTable.GetIdRange` | LiFi_link/wpa_supplicant-2.10-lifi/wpa_supplicant/bss.c:1106-1115 | The first entry of the id list in the range |
| `BssTable.BssTable.RemoveOldestUnknown` | LiFi_link/wpa_supplicant-2.10-lifi/wpa_supplicant/bss.c:396-409 | Removes the first unknown entry in refresh order, or nothing |
| `BssTable.BssTable.RemoveOldest` | LiFi_link/wpa_supplicant-2.10-lifi/wpa_supplicant/bss.c:412-434 | Removes the victim: unknown first, then idle, or nothing |
| `BssTable.BssTable.Add` | LiFi_link/wpa_supplicant-2.10-lifi/wpa_supplicant/bss.c:437-480 | Allocates, makes room and links the entry |
| `BssTable.BssTable.Update` | LiFi_link/wpa_supplicant-2.10-lifi/wpa_supplicant/bss.c:615-717 | Refreshes an entry or refuses an obsolete repeat; keeps P2P elements; moves it if its elements grow |
| `BssTable.BssTable.Reallocate` | LiFi_link/wpa_supplicant-2.10-lifi/wpa_supplicant/bss.c:681-709 | Index, id list, current entry and pending work follow an entry to its new address |
| `BssTable.BssTable.UpdateStart` | LiFi_link/wpa_supplicant-2.10-lifi/wpa_supplicant/bss.c:729-735 | Starts a round with an empty index and keeps the invariant |
| `BssTable.BssTable.UpdateScanRes` | LiFi_link/wpa_supplicant-2.10-lifi/wpa_supplicant/bss.c:748-842 | Filters a scan result and stores it; keeps the invariant |
| `BssTable.BssTable.Included` | LiFi_link/wpa_supplicant-2.10-lifi/wpa_supplicant/bss.c:845-880 | Whether a scan covered the channel and SSID of an entry |
| `BssTable.BssTable.UpdateEnd` | LiFi_link/wpa_supplicant-2.10-lifi/wpa_supplicant/bss.c:896-916 | Counts misses and drops expired entries; keeps the invariant |
| `BssTable.BssTable.Flush` | LiFi_link/wpa_supplicant-2.10-lifi/wpa_supplicant/bss.c:973-987 | Removes what is not in use; keeps the invariant |
| `BssTable.BssTable.FlushByAge` | LiFi_link/wpa_supplicant-2.10-lifi/wpa_supplicant/bss.c:930-947 | Removes exactly those entries, in place; keeps the invariant |
| `PrioList.WpaConfig.UpdatePrioList` | LiFi_link/wpa_supplicant-2.10-lifi/wpa_supplicant/config.c:2726-2744 | From any stale pnext pointers, the head array and the pnext chains become the groups of the configured networks by priority |
| `PrioList.WpaConfig.AddPrioNetwork` | LiFi_link/wpa_supplicant-2.10-lifi/wpa_supplicant/config.c:2674-2714 | Adds a network behind those of its priority, or as a new head in the gap |
| `PrioList.WpaConfig.AppendToGroup` | LiFi_link/wpa_supplicant-2.10-lifi/wpa_supplicant/config.c:2684-2692 | Links a network at the end of an existing priority chain and leaves the others alone |
| `PrioList.WpaConfig.InsertGroup` | LiFi_link/wpa_supplicant-2.10-lifi/wpa_supplicant/config.c:2694-2712 | Inserts a head into the array; every other chain stays |
| `PrioList.WpaConfig.InOrder` | LiFi_link/wpa_supplicant-2.10-lifi/wpa_supplicant/config.c:2718-2744 | Reading the heads and each pnext chain in turn, as network selection does, gives the networks as the stable sort by descending priority |
| `PrioList.WpaConfig.AddNetwork` | LiFi_link/wpa_supplicant-2.10-lifi/wpa_supplicant/config.c:3026-3054 | Adds a network with an id above all others at the end of the chain; ids stay unique and the lists are rebuilt |
| `PrioList.WpaConfig.RemoveNetwork` | LiFi_link/wpa_supplicant-2.10-lifi/wpa_supplicant/config.c:3063-3086 | Removes exactly the network with the id, or reports that there is none and leaves the networks, the groups and every link as they are; ids stay unique and the lists are rebuilt |
| `StableSort.SortIsStable` | LiFi_link/wpa_supplicant-2.10-lifi/wpa_supplicant/config.c:2718-2744 | The reference order is descending and keeps the configuration order of equal priorities |
| `StableSort.SortIsPermutation` | LiFi_link/wpa_supplicant-2.10-lifi/wpa_supplicant/config.c:2718-2744 | The reference order holds every network exactly once |
| `StableSort.StableSortIsUnique` | LiFi_link/wpa_supplicant-2.10-lifi/wpa_supplicant/config.c:2718-2744 | There is only one such order |
| `StableSort.BuildIsSort` | LiFi_link/wpa_supplicant-2.10-lifi/wpa_supplicant/config.c:2674-2714 | Adding the networks one by one to groups and reading the groups in turn is the stable sort |
| `IgnoreModel.LazyPurgeUnobservable` | LiFi_link/wpa_supplicant-2.10-lifi/wpa_supplicant/bssid_ignore.c:21-108 | Under a clock that does not go back, get, add and is_listed answer as an eager per-BSSID record that forgets an entry once it is older than its timeout plus 3600 s |
| `IgnoreModel.RemoveShowsUnpurged` | LiFi_link/wpa_supplicant-2.10-lifi/wpa_supplicant/bssid_ignore.c:117-140 | The answer of a removal, which does not purge, differs from the eager one **if and only if** the record is old by now but was not at the latest purge |
| `IgnoreModel.RemoveFindsOldEntry` | LiFi_link/wpa_supplicant-2.10-lifi/wpa_supplicant/bssid_ignore.c:117-140 | A history in which a removal reports an entry that is older than its timeout plus 3600 s, where the eager record has none |
| `IgnoreModel.ListIsSound` | LiFi_link/wpa_supplicant-2.10-lifi/wpa_supplicant/bssid_ignore.c:65-108 | No BSSID occurs twice, and every timeout is the back-off for its count |
| `IgnoreModel.ListAgrees` | LiFi_link/wpa_supplicant-2.10-lifi/wpa_supplicant/bssid_ignore.c:21-221 | The list holds a record exactly unless the latest purge found it old |
| `IgnoreModel.PurgeIs` | LiFi_link/wpa_supplicant-2.10-lifi/wpa_supplicant/bssid_ignore.c:190-221 | A purge forgets exactly the old records |
| `IgnoreList.IgnoreList.Update` | LiFi_link/wpa_supplicant-2.10-lifi/wpa_supplicant/bssid_ignore.c:190-221 | The linked list is purged in place |
| `IgnoreList.IgnoreList.Get` | LiFi_link/wpa_supplicant-2.10-lifi/wpa_supplicant/bssid_ignore.c:21-48 | Clears after a reconfiguration, else purges, and finds the entry |
| `IgnoreList.IgnoreList.Add` | LiFi_link/wpa_supplicant-2.10-lifi/wpa_supplicant/bssid_ignore.c:65-108 | Counts a failure in the entry or puts a new one at the head; returns the count |
| `IgnoreList.IgnoreList.Bump` | LiFi_link/wpa_supplicant-2.10-lifi/wpa_supplicant/bssid_ignore.c:71-88 | Sets count, start and back-off of the entry found |
| `IgnoreList.IgnoreList.Del` | LiFi_link/wpa_supplicant-2.10-lifi/wpa_supplicant/bssid_ignore.c:117-140 | Unlinks the entry of the BSSID, if there is one |
| `IgnoreList.IgnoreList.IsListed` | LiFi_link/wpa_supplicant-2.10-lifi/wpa_supplicant/bssid_ignore.c:150-162 | The count of the entry while it has not run out, else 0 |
| `IgnoreList.IgnoreList.Clear` | LiFi_link/wpa_supplicant-2.10-lifi/wpa_supplicant/bssid_ignore.c:169-182 | Empties the list |
| `RoundRobin.EachExactlyOnce` | LiFi_link/hostapd-2.10-lifi/hostapd/hlr_auc_gw.c:362-384 | With n qualifying positions, any n successive searches from any cursor find each exactly once |
| `RoundRobin.HitRotates` | LiFi_link/hostapd-2.10-lifi/hostapd/hlr_auc_gw.c:362-384 | A search fails exactly if nothing qualifies, and otherwise moves its find to the end of the round |
| `GsmTriplets.TripletFairness` | LiFi_link/hostapd-2.10-lifi/hostapd/hlr_auc_gw.c:362-384 | Any n successive requests for an IMSI with n triplets use each of them exactly once |
| `GsmTriplets.ChallengesAreFilled` | LiFi_link/hostapd-2.10-lifi/hostapd/hlr_auc_gw.c:633-648 | A request is empty exactly when no triplet is for the IMSI; otherwise the challenge loop fills up |
| `GsmTriplets.TripletDb.GetTriplet` | LiFi_link/hostapd-2.10-lifi/hostapd/hlr_auc_gw.c:362-384 | The two loops over the linked list find the next triplet in turn and leave the cursor behind it |
| `GsmTriplets.TripletDb.Challenges` | LiFi_link/hostapd-2.10-lifi/hostapd/hlr_auc_gw.c:633-648 | The challenge loop terminates with the triplets that the visits from the old cursor give |
| `BgscanProbe.ProbeFairness` | LiFi_link/wpa_supplicant-2.10-lifi/wpa_supplicant/bgscan_learn.c:235-267 | With n supported frequencies not yet learned, any n successive scans probe each exactly once |
| `BgscanProbe.ProbesContinue` | LiFi_link/wpa_supplicant-2.10-lifi/wpa_supplicant/bgscan_learn.c:235-267 | A scan probes what comes first in turn and leaves the index where the turn goes on |
| `BgscanProbe.Probe.GetProbeFreq` | LiFi_link/wpa_supplicant-2.10-lifi/wpa_supplicant/bgscan_learn.c:235-267 | Terminates with the index in range and appends the next supported frequency that is not visible in the array, or nothing if there is none |
| `BgscanProbe.Probe.Timeout` | LiFi_link/wpa_supplicant-2.10-lifi/wpa_supplicant/bgscan_learn.c:270-318 | One timeout shows the driver the frequencies of the entries before the first one with the frequency 0, and probes the next supported frequency in turn that is not among them, if there is one; the probe is shown exactly if no entry has the frequency 0 |
| `BgscanProbe.Probe.Timeouts` | LiFi_link/wpa_supplicant-2.10-lifi/wpa_supplicant/bgscan_learn.c:270-318 | Successive timeouts probe what the visits from the old index give |
| `BgscanProbe.RoundIsFair` | LiFi_link/wpa_supplicant-2.10-lifi/wpa_supplicant/bgscan_learn.c:235-267 | With n unlearned supported frequencies, n successive timeouts probe exactly these, each once |
| `BgscanProbe.ProbeIsSeen` | LiFi_link/wpa_supplicant-2.10-lifi/wpa_supplicant/bgscan_learn.c:211-267 | The driver is shown the probe **if and only if** no entry before it in the array has the frequency 0 |
| `BgscanProbe.GetSuppFreqs` | LiFi_link/wpa_supplicant-2.10-lifi/wpa_supplicant/bgscan_learn.c:348-377 | The enabled frequencies of all modes, each once, with a terminating 0 |
| `BgscanProbe.GetFreqs` | LiFi_link/wpa_supplicant-2.10-lifi/wpa_supplicant/bgscan_learn.c:211-232 | The frequencies of the entries, each once, up to the first entry with the frequency 0, which ends what is visible |
| `BgscanProbe.InArray` | LiFi_link/wpa_supplicant-2.10-lifi/wpa_supplicant/bgscan_learn.c:195-208 | Whether a zero-terminated array holds a value |
| `LearnModel.NotifyIs` | LiFi_link/wpa_supplicant-2.10-lifi/wpa_supplicant/bgscan_learn.c:481-538 | What a scan does to the entry of any BSSID: unheard ones stay; heard ones have the channel of their last result and the addresses heard joined to their neighbors once |
| `LearnModel.NeighborsAre` | LiFi_link/wpa_supplicant-2.10-lifi/wpa_supplicant/bgscan_learn.c:68-85 | Joining keeps the old neighbors in place, adds exactly the offered addresses other than the owner, and keeps the list free of repeats |
| `LearnModel.HeardTogether` | LiFi_link/wpa_supplicant-2.10-lifi/wpa_supplicant/bgscan_learn.c:502-538 | Two BSSes of a scan with fewer than 50 matching results become neighbors of each other |
| `LearnModel.NoteAllKeepsSound` | LiFi_link/wpa_supplicant-2.10-lifi/wpa_supplicant/bgscan_learn.c:512-538 | A scan keeps BSSIDs distinct and neighbor lists free of repeats and of their owner |
| `LearnModel.NoteAllKeepsOrder` | LiFi_link/wpa_supplicant-2.10-lifi/wpa_supplicant/bgscan_learn.c:519-531 | A scan adds entries only at the head and moves none |
| `LearnModel.LoadOfSave` | LiFi_link/wpa_supplicant-2.10-lifi/wpa_supplicant/bgscan_learn.c:101-192 | Loading what was saved gives the same entries, channels and neighbor sequences in reversed order |
| `LearnModel.TwiceIsIdentity` | LiFi_link/wpa_supplicant-2.10-lifi/wpa_supplicant/bgscan_learn.c:101-192 | Saving and loading twice is the identity |
| `LearnModel.LoadIsSoundExactlyWhen` | LiFi_link/wpa_supplicant-2.10-lifi/wpa_supplicant/bgscan_learn.c:125-152 | From any file the neighbor lists come out sound, and the whole table **if and only if** no two BSS lines name the same address |
| `LearnModel.DuplicateLinesLoadTwice` | LiFi_link/wpa_supplicant-2.10-lifi/wpa_supplicant/bgscan_learn.c:125-152 | A file with two BSS lines for one address loads as two entries with it |
| `LearnModel.LearnedSurvivesRestart` | LiFi_link/wpa_supplicant-2.10-lifi/wpa_supplicant/bgscan_learn.c:101-192 | Whatever scans filled the table from empty, it comes back after a restart |
| `BgscanLearn.Bss.AddNeighbor` | LiFi_link/wpa_supplicant-2.10-lifi/wpa_supplicant/bgscan_learn.c:68-85 | Appends an address that is neither the owner nor known |
| `BgscanLearn.Learner.GetBss` | LiFi_link/wpa_supplicant-2.10-lifi/wpa_supplicant/bgscan_learn.c:88-98 | The first entry with the address, or null |
| `BgscanLearn.Learner.NotifyScan` | LiFi_link/wpa_supplicant-2.10-lifi/wpa_supplicant/bgscan_learn.c:481-538 | The two loops over the scan results change the entries in place as the table of values says |
| `BgscanLearn.Learner.Save` | LiFi_link/wpa_supplicant-2.10-lifi/wpa_supplicant/bgscan_learn.c:161-192 | Writes the header, a line per entry and a line per neighbor |
| `BgscanLearn.Learner.Load` | LiFi_link/wpa_supplicant-2.10-lifi/wpa_supplicant/bgscan_learn.c:101-158 | Reads the lines back; a file without the header is refused and changes nothing |
| `BgscanLearn.Restart` | LiFi_link/wpa_supplicant-2.10-lifi/wpa_supplicant/bgscan_learn.c:101-192 | Save and load into a fresh table give the entries in reversed order |
| `Sqn.IncSqn` | LiFi_link/hostapd-2.10-lifi/hostapd/hlr_auc_gw.c:712-731 | The six bytes are incremented as one number: SEQ and IND each by one, modulo 2^48; the step is defined **if and only if** the IND length is at most 30 |
| `Sqn.PutBytes` | LiFi_link/hostapd-2.10-lifi/hostapd/hlr_auc_gw.c:729-730 | The low 48 bits in big-endian bytes |
| `Sqn.NextParts` | LiFi_link/hostapd-2.10-lifi/hostapd/hlr_auc_gw.c:723-728 | One step adds 1 to SEQ and 1 to IND modulo 2^len, and the whole number grows |
| `Sqn.IterateParts` | LiFi_link/hostapd-2.10-lifi/hostapd/hlr_auc_gw.c:712-731 | After n steps SEQ is SEQ0 + n and IND is (IND0 + n) mod 2^len |
| `Sqn.IncSqnTimes` | LiFi_link/hostapd-2.10-lifi/hostapd/hlr_auc_gw.c:753 | n calls on any six bytes, also beyond the 48-bit wrap, give SEQ + n and IND + n modulo their ranges |
| `Sqn.NextOfRest` | LiFi_link/hostapd-2.10-lifi/hostapd/hlr_auc_gw.c:729-730 | What is cut off at 48 bits has no effect on later steps |
| `Sqn.IterateIncreases` | LiFi_link/hostapd-2.10-lifi/hostapd/hlr_auc_gw.c:712-731 | Issued numbers increase strictly |
| `Sqn.SameIndFarApart` | LiFi_link/hostapd-2.10-lifi/hostapd/hlr_auc_gw.c:712-731 | Two issued numbers with the same IND differ in SEQ by a positive multiple of 2^len |
| `VendorIe.GetVendorIeMulti` | LiFi_link/wpa_supplicant-2.10-lifi/wpa_supplicant/bss.c:1219-1252 | The first walk returns the concatenated vendor payload, or none if it is empty, within a buffer of the input length |
| `VendorIe.GetVendorIeMultiBeacon` | LiFi_link/wpa_supplicant-2.10-lifi/wpa_supplicant/bss.c:1268-1297 | The second walk, written differently, returns the same for the beacon elements |
| `VendorIe.WalkByHeader` | LiFi_link/wpa_supplicant-2.10-lifi/wpa_supplicant/bss.c:1232-1244 | The first loop collects exactly what the elements of the buffer hold |
| `VendorIe.WalkByElement` | LiFi_link/wpa_supplicant-2.10-lifi/wpa_supplicant/bss.c:1282-1289 | So does the second loop |
| `VendorIe.ElementsArePrefix` | LiFi_link/wpa_supplicant-2.10-lifi/wpa_supplicant/bss.c:1232-1244 | The elements read make up a prefix of the bytes that no whole element follows |
| `VendorIe.ElementsAreLongest` | LiFi_link/wpa_supplicant-2.10-lifi/wpa_supplicant/bss.c:1232-1244 | Whatever elements the bytes start with are read first, so the prefix is the longest |
| `VendorIe.FragmentsComeBack` | LiFi_link/wpa_supplicant-2.10-lifi/wpa_supplicant/bss.c:1209-1217 | A payload cut into pieces of up to 251 octets comes back whole among other elements and before an incomplete one |
| `VendorIe.WpaBuf.PutData` | LiFi_link/wpa_supplicant-2.10-lifi/wpa_supplicant/bss.c:1242 | Appends octets, with room shown for every one of them |
| `FreqText.ReadBackExactlyWhen` | LiFi_link/wpa_supplicant-2.10-lifi/wpa_supplicant/config.c:1380-1492 | A list of positive numbers is read back after writing **if and only if** its whole text takes at most ten characters per element |
| `FreqText.ReadBack` | LiFi_link/wpa_supplicant-2.10-lifi/wpa_supplicant/config.c:1380-1492 | Numbers below 10^9 are never cut and are read back |
| `FreqText.TenDigitsAreCut` | LiFi_link/wpa_supplicant-2.10-lifi/wpa_supplicant/config.c:1476-1489 | Any two numbers of ten digits are not read back |
| `FreqText.AtoiOfSigned` | LiFi_link/wpa_supplicant-2.10-lifi/wpa_supplicant/config.c:1410 | White space, a sign and digits read as the signed number, whatever follows |
| `FreqText.AtoiOfOther` | LiFi_link/wpa_supplicant-2.10-lifi/wpa_supplicant/config.c:1410-1412 | Text that does not start with a number reads as 0, which ends the list |
| `FreqText.ParsedOfFull` | LiFi_link/wpa_supplicant-2.10-lifi/wpa_supplicant/config.c:1380-1418 | The reader inverts the uncut text of any list of positive numbers |
| `FreqText.FullCut` | LiFi_link/wpa_supplicant-2.10-lifi/wpa_supplicant/config.c:1480-1489 | Any shorter beginning of the text reads as another list |
| `FreqList.ParseIntArray` | LiFi_link/wpa_supplicant-2.10-lifi/wpa_supplicant/config.c:1380-1418 | Fills a doubling array with the numbers of any text; all elements after them are 0 |
| `FreqList.ParseFreqList` | LiFi_link/wpa_supplicant-2.10-lifi/wpa_supplicant/config.c:1441-1458 | The list of a network, or none if the text has no numbers |
| `FreqList.WriteFreqs` | LiFi_link/wpa_supplicant-2.10-lifi/wpa_supplicant/config.c:1462-1492 | Writes the text of the list, cut where the buffer of 10 characters per element ends |
| `FreqList.WriteAndParse` | LiFi_link/wpa_supplicant-2.10-lifi/wpa_supplicant/config.c:1421-1492 | Write, then parse, gives the list back exactly when its text fits |
| `AddrText.ReadBackExactlyWhen` | LiFi_link/wpa_supplicant-2.10-lifi/wpa_supplicant/config.c:263-353 | A written address list is read back in the same order **if and only if** the reader allows the masks in it |
| `AddrText.ReadOfList` | LiFi_link/wpa_supplicant-2.10-lifi/wpa_supplicant/config.c:276-315 | Reading puts the whole list in front of what was read before |
| `AddrText.ReadNoMore` | LiFi_link/wpa_supplicant-2.10-lifi/wpa_supplicant/config.c:281-289 | A mask that is not allowed leaves fewer elements or an error |
| `AddrText.DecodeOfEncode` | LiFi_link/wpa_supplicant-2.10-lifi/src/utils/common.c:80-105 | A written address is read back with its mask; a mask that is not allowed makes it unreadable |
| `AddrText.ReadOfText` | LiFi_link/wpa_supplicant-2.10-lifi/src/utils/common.c:41-58 | Octets written as hex pairs with colons are read back, and the rest of the text is left |
| `AddrText.TextSplit` | LiFi_link/wpa_supplicant-2.10-lifi/wpa_supplicant/config.c:337-350 | The text starts with the last element of the list |
| `AddrList.AddrList.Parse` | LiFi_link/wpa_supplicant-2.10-lifi/wpa_supplicant/config.c:263-318 | Replaces the list by what the text holds, or reports an error and leaves it |
| `AddrList.AddrList.Write` | LiFi_link/wpa_supplicant-2.10-lifi/wpa_supplicant/config.c:322-353 | Writes the list backwards; the buffer of 40 characters per element always suffices |
| `AddrList.AddrList.Reload` | LiFi_link/wpa_supplicant-2.10-lifi/wpa_supplicant/config.c:263-353 | Write, then parse, keeps the list exactly when its masks are allowed |

## Left out

- Sockets, subprocesses, files, sleeps and clocks: they are step outcomes or parameters. Messages are atomic; a message is never split or merged with the next one.
- The AP as a client that shares the sync port or the passphrase port with others; it is the only client.
- The text of the two protocol scripts as methods with loops: the steps of their loops are the actions of the step systems, and aliasing of their globals does not arise.
- PtkCommit.StaNext: the WiFi association checks and their waits are one step with a nondeterministic outcome, and the key of the install step is read under the lock at that step.
- Disconnecting: to drop the link means to issue the disconnect; both sides ignore its failures (`ptk_receiver_ap.py:59-84`, `ptk_receiver_sta.py:64-73`), and the AP issues none if no station is listed.
- RekeyRound.WatchdogSeesSessions: a run may hold any watchdog disconnects; that these are the verdicts of the watchdog is not part of the run.
- Watchdog.Watcher.Watch: a poll reads file, clock and install time at one instant, and polls that find the file unreadable are not listed.
- Cryptography, the 4-way handshake, Milenage, and the hash of the passphrase, of which only injectivity is assumed, and only in PassphraseAgreement.
- Passphrase.PassphraseAgreement: assumes that the daemon executes a command for a passphrase that is neither too long nor taken for an option when `wpa_cli` reports success; a daemon without a state machine, or one that stops in between, breaks that. The option parser is that of the GNU C library, which also looks behind the command. Which options make `wpa_cli` fail is not modelled, so an option may be reported as a success or a failure. What the passphrase is when nothing has been set is not modelled.
- BssWorks.ConnectFollowsOverRuns: a work carries the id of the entry it was queued for, which the source does not keep; no operation depends on it. Works that have started, and the checks under which the source rejects a new one, are not modelled, so the runs include more than the source allows.
- Allocation failures: every allocation succeeds. In the BSS table the index array therefore always grows.
- Wrap-around of 32-bit counters such as `bss_update_idx` and `bss_next_id`: they are unbounded.
- BssTable.BssTable.Update: HESSID, ANQP, rates, flags, levels and change notifications are not part of an entry; elements are two byte strings, and only their sizes and the P2P test matter.
- BssTable.BssTable.UpdateScanRes: the SSID, mesh ID and P2P attribute of a scan result are given as parsed.
- BssTable.BssTable.FlushByAge: the cutoff is given as a time; the borrow between seconds and microseconds in `calculate_update_time` is a subtraction of microseconds here.
- The lists of `utils/list.h` in the BSS table and in the background scan: they are sequences of addresses or of objects, not linked by pointers.
- BgscanProbe.GetSuppFreqs: the channels of the driver have a frequency other than 0, the value that terminates the arrays.
- BgscanProbe.Probe.Timeout: a network with scan frequencies of its own, for which nothing is probed, and what comes of the scan.
- BgscanLearn.Learner.Load: lines are given as parsed, and lines of 128 characters or more are not modelled.
- GsmTriplets.TripletDb.Challenges: what is printed for a triplet, and the branch for IMSIs with Milenage parameters.
- Sqn.IncSqn: shifts are multiplications by powers of two, and bytes are numbers below 256. What an undefined shift does is not modelled.
- FreqList.ParseIntArray: `atoi` is unbounded; numbers beyond `int`, which are undefined in C, are read as they are.
- VendorIe.GetVendorIeMulti: the buffer is an array of the size of the input, and `wpabuf` is not modelled beyond that.
- AddrText.DecodeOfEncode: the reader is a function on the text; its loop over six octets is a recursion.
- `wpa_bss_get_id`, `wpa_bss_get_bssid` and the other plain lookups, `bgscan_simple.c`, `autoscan_*.c`, `hostapd_cli.c`, `main.c`, `ctrl_iface.c` and the field assignments of the configuration: only easy members.
