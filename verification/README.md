# OpenSSL command-line tools: a verified model

This project models the algorithms of the OpenSSL 1.1.0e `apps/` directory that keep state or transform text, and
proves what they are for. `dafny verify dfyconfig.toml` checks all of it.

* **Rehash of a certificate directory** (`rehash.c`). `RehashSpec` says on values what a bucket holds after any
  sequence of `add_entry` calls: its invariant, and its contents as a function of the records; `RehashCommute` says
  exactly when link records commute with file records. `RehashTable` is the chained hash table on the heap; every
  `add_entry` refines a map from (type, hash) to buckets. `RehashPlan` is the link-id allocator with its bit mask
  (`BitMask`): ids are distinct, and gap-free exactly when a stated condition holds. `RehashDir` is the imperative
  processing of a bucket, `RehashNames` the printed link names and their parser, `RehashScan` what a scan records of
  the names it finds, `RehashIdempotent` shows that a second run of a bucket has nothing to do. `RehashRun` puts the
  buckets of a directory together, one mask going from bucket to bucket; `RehashWalk` is the walk over the heap table
  that carries this out, and `RehashGap` a directory in which it leaves a gap.
* **The CA database** (`ca.c`, `ocsp.c`). `CaDb` has rows, the two in-memory indexes, issuing, revoking and
  expiring, and what any run of them keeps; `CaCommands` is the same on mutable rows. `Serials` are the serial
  numbers as the index spells and compares them, `CaExpiry` relates the expiry sweep's string comparison to time,
  `CaStatus` is the status query, `CaPolicy` the policy loop on a request's subject, `Revocation` the revocation
  string and its parser, `Ocsp` what the responder says of a row, `CopyExtensions` the copying of a request's
  extensions.
* **The commit on disk** (`apps.c`, `ca.c`). `CaFiles` is a directory in which every write and every rename may
  fail, a write even without an error, with a trace of all states it goes through, and the two rotations on it.
  `CaCommit` has the commands that sign, mark expired rows and revoke, from reading the files to storing them, and
  shows when the stored serial stays ahead of the stored index in every state.
* **Parsers and encoders** (`apps.c`, `opt.c`, `cms.c`, `s_cb.c`, `ocsp.c`). `ParseName` (module
  `DistinguishedNames`), `Protos`, `Options` and `OptScanner`, `Cms`, `CmsAccept` and `CmsArgs`, `Excert` and
  `ExcertList`, `UrlDecode`: each a reference reading, the in-place or linked implementation proved equal to it, and a round trip
  or an order that is kept.
* **The output stage of md5crypt** (`passwd.c`), in `Md5Crypt`: the permutation and the 6-bit packing are
  invertible, and are those of crypt(3).

Strings are C strings without their NUL; bytes are characters below 256, or `bv8` where bits matter. A digest is a
number, 0 standing for the zero bytes of an entry no file has claimed. What the program asks of the ASN.1 library,
the object table, the clock, the file system and the user is a parameter, or a choice the model leaves open.

Where the promises fail, the code was kept and the exact condition proved:

* The mask of link ids is cleared for the needed files only, so stale low links can open a gap:
  `RehashPlan.GapFreeIff`, `RehashPlan.GapFreeForEveryMask`. `RehashGap.GapInARun` has records for which it happens
  in a run from any mask: a bucket of n + 1 files leaves bit n to the next one.
* An all-zero digest, or as many files as the cap allows, makes the order of link and file records matter:
  `RehashCommute.CommuteIff`, with an instance in `RehashCommute.ZeroDigestDoesNotCommute`.
* A link name that parses but is not the printed one, such as `abcdef01.00`, has its id kept with no link under the
  printed name: `RehashScan.ScannedIff` and `RehashScan.OddNameIsKept`.
* The expiry sweep reads a GeneralizedTime as if its century were a year: `CaExpiry.GeneralizedExpired` says what it
  decides and `CaExpiry.GeneralizedVerdict` exactly when that is right. Certificates good until 2030 or 2050 are
  marked from 2021 on, those good until 9999 from 2000 on: `CaExpiry.CenturyMarkedFrom2021`,
  `CaExpiry.LateYearsMarked`.
* A rotation that fails while a main file was missing can bring back a stale old file even though every rename of
  the rollback works: the equivalences in `CaFiles.RotateSerial` and `CaFiles.RotateIndex`. With the main files there
  at the start it does not happen.
* A write cut short without an error is installed all the same, and then the serial is not ahead:
  `CaCommit.Commit`.
* Revoking a certificate the index does not know keeps the serial ahead only if its serial was passed already:
  `CaCommit.RevokeBelowIff`, and for the whole command `CaCommit.RevokeCommand`.
* The status query never finds a row whose serial is spelled in lower case, though such a row loads, and a negative
  one only by its own digits: `CaStatus.QueryFindsIff`.
* The responder says nothing of a revoked certificate whose revocation date does not read: `Ocsp.StatusFits`.
* The protocol-list encoder accepts empty names, which RFC 7301 does not: `Protos.StandardIff`.
* `urldecode` says it ignores malformed sequences, but refuses the whole text: `UrlDecode.Urldecode`.

## Model

| member | source | states |
|---|---|---|
| BitMask.BitSet | openssl-1.1.0e/apps/rehash.c:78-81 | setting a bit adds exactly that bit to the set the bytes stand for |
| BitMask.BitIsSet | openssl-1.1.0e/apps/rehash.c:83-86 | the test is membership in that set |
| BitMask.ClearBytes | openssl-1.1.0e/apps/rehash.c:331 | the memset empties the bits of the cleared bytes and leaves all others |
| RehashSpec.AddEntryKeepsInv | openssl-1.1.0e/apps/rehash.c:114-153 | one call keeps filenames unique, digests of needed entries distinct, unclaimed entries blank, and the count of needed entries exact in its 16 bits |
| RehashSpec.RunInv | openssl-1.1.0e/apps/rehash.c:92-154 | the same of every bucket any sequence of calls builds |
| RehashSpec.RunIsExpected | openssl-1.1.0e/apps/rehash.c:114-153 | below the collision cap and with no all-zero digest for a new file, every filename holds its least link id and the digest of the first file accepted under it, and num_needed counts the accepted files |
| RehashSpec.RefusedIff | openssl-1.1.0e/apps/rehash.c:114-134 | a call is refused, with one error and nothing changed, iff some entry has the digest or a new filename comes when 256 entries are needed |
| RehashSpec.RunRefuses | openssl-1.1.0e/apps/rehash.c:114-134 | below the cap a link is never refused, and a file iff a file with its digest was accepted before |
| RehashCommute.CommuteIff | openssl-1.1.0e/apps/rehash.c:115-153 | whether interleavings with these files in order and the same links all leave the same bucket: iff fewer files than the cap are accepted and no all-zero digest is a new file's |
| RehashCommute.LinksCommute | openssl-1.1.0e/apps/rehash.c:193 | then every filename has the same contents and the count is the same |
| RehashCommute.ZeroDigestDoesNotCommute | openssl-1.1.0e/apps/rehash.c:115-119 | two such interleavings that differ |
| RehashSpec.TableIsItsBuckets | openssl-1.1.0e/apps/rehash.c:100-112 | in the map the table refines, each bucket is the run of the records with its own type and hash |
| RehashTable.HashBucket.Search | openssl-1.1.0e/apps/rehash.c:114-126 | the scan reports a duplicate iff some entry has the digest, and otherwise finds the entry with the filename iff there is one |
| RehashTable.HashBucket.Create | openssl-1.1.0e/apps/rehash.c:135-143 | a new entry becomes the tail of the list and last_entry |
| RehashTable.HashBucket.Update | openssl-1.1.0e/apps/rehash.c:146-152 | the least link id wins, the first claim fixes the digest and is counted |
| RehashTable.HashBucket.Add | openssl-1.1.0e/apps/rehash.c:114-153 | the linked list refines the bucket function, errors included |
| RehashTable.HashTable.FindBucket | openssl-1.1.0e/apps/rehash.c:102-104 | the chain walk finds the bucket of a key iff there is one |
| RehashTable.HashTable.PushFront | openssl-1.1.0e/apps/rehash.c:107-111 | a new bucket heads the chain of slot (type+hash) mod 257 |
| RehashTable.HashTable.AddEntry | openssl-1.1.0e/apps/rehash.c:92-154 | the heap table refines the map from keys to buckets: one bucket takes the record, no other changes |
| RehashPlan.AssignFits | openssl-1.1.0e/apps/rehash.c:338-384 | each entry is kept, newly linked, removed or left as its id and need say |
| RehashPlan.AssignFresh | openssl-1.1.0e/apps/rehash.c:345-369 | new ids were unused, differ from each other, and leave no unused id below them |
| RehashPlan.IdsDistinct | openssl-1.1.0e/apps/rehash.c:330-369 | whatever the mask held before, ids in use are pairwise distinct and n + s in number |
| RehashPlan.GapFreeIff | openssl-1.1.0e/apps/rehash.c:330-369 | they are exactly 0..n+s-1 if and only if the mask bits past the cleared bytes are clear where new ids may fall |
| RehashPlan.NoStaleLowIsGapFree | openssl-1.1.0e/apps/rehash.c:331-348 | without stale low links they are exactly 0..n-1 |
| RehashPlan.GapFreeForEveryMask | openssl-1.1.0e/apps/rehash.c:331 | gap-free for every earlier mask content iff n + s is at most 8*((n+7)/8) |
| RehashPlan.MaskAfterIs | openssl-1.1.0e/apps/rehash.c:330-369 | a bucket leaves in the mask the ids in use and what it did not clear |
| RehashGap.StaleLinkLeavesGap | openssl-1.1.0e/apps/rehash.c:331-348 | for every multiple of eight files, records whose bucket has one stale link, and a left-over mask bit that opens a gap in it |
| RehashGap.GapInARun | openssl-1.1.0e/apps/rehash.c:327-391 | with a bucket of one more file before it the gap is there after a run, whatever the mask held at the start: id n is skipped and n + 1 given out |
| RehashIdempotent.RunPlaces | openssl-1.1.0e/apps/rehash.c:314-390 | a run on a tidy directory succeeds and leaves every needed file at one id below n and nothing else there; what it removes is no kept or new link |
| RehashIdempotent.SecondRunIsIdle | openssl-1.1.0e/apps/rehash.c:314-390 | a second run on the result, links found in any order, unlinks and links nothing |
| RehashIdempotent.HighLinkStays | openssl-1.1.0e/apps/rehash.c:370-384 | past the first n ids a run adds no link, and with removal on leaves only links to needed files |
| RehashRun.EachKeyItsTurn | openssl-1.1.0e/apps/rehash.c:327-391 | in whatever order the buckets come, each key's links change as its own bucket and the mask left by those before say, and no other key's do |
| RehashScan.ScannedIff | openssl-1.1.0e/apps/rehash.c:160-193 | the link records of a scan are the links under printed names iff every name that parses has its printed twin |
| RehashScan.OddNameIsKept | openssl-1.1.0e/apps/rehash.c:160-193 | a name with one digit too many has its id kept, and the file is left without a printed link |
| RehashScan.OthersStay | openssl-1.1.0e/apps/rehash.c:350-384 | a name not printed for the key is never touched |
| RehashRun.DirectoryIsPlaced | openssl-1.1.0e/apps/rehash.c:310-391 | a run on the scan of a tidy directory does not fail, and each key then has one link per needed file, from 0 up, under the printed names |
| RehashRun.SecondRunChangesNothing | openssl-1.1.0e/apps/rehash.c:310-391 | a second run over a directory of printed link names, buckets and links found in any order and whatever its mask, changes no name |
| RehashWalk.ProcessChain | openssl-1.1.0e/apps/rehash.c:328-389 | the buckets of one chain have their turns in the chain's order |
| RehashWalk.ProcessTable | openssl-1.1.0e/apps/rehash.c:327-391 | the walk over all slots gives every bucket of the heap table one turn; from the scan of a tidy directory every needed file ends with its link |
| RehashNames.ReadLinkName | openssl-1.1.0e/apps/rehash.c:160-186 | the digit-by-digit parse of a link name, with 32-bit hash, case-blind suffix and strtoul |
| RehashNames.ParsePrinted | openssl-1.1.0e/apps/rehash.c:340-352 | every printed link name parses back to its hash, type and id |
| RehashNames.LinkNameText | openssl-1.1.0e/apps/rehash.c:350-352 | a printed name is the hash in eight small hexadecimal digits, a dot, "r" for a CRL, and the id in decimal without a needless zero |
| RehashNames.LinkNameOfExample | openssl-1.1.0e/apps/rehash.c:350-352 | hash 0xabcdef01 and id 0 give "abcdef01.0" |
| RehashNames.ReadsSpelling | openssl-1.1.0e/apps/rehash.c:167-186 | hexadecimal digits in either case, an optional "r" or "R", and blanks, a sign and digits are read as that hash, type and id: modulo 65536, negative ones from the top, all ones past 64 bits |
| RehashNames.ReadIff | openssl-1.1.0e/apps/rehash.c:167-186 | and no other name is read |
| RehashNames.HexPrinted | openssl-1.1.0e/apps/rehash.c:167-173 | the hash of a name, printed, is its digits in small letters |
| RehashNames.LinkNamesDiffer | openssl-1.1.0e/apps/rehash.c:350-352 | links of different buckets, or with different ids, never share a name |
| RehashDir.MarkLow | openssl-1.1.0e/apps/rehash.c:332-334 | the first walk sets the bits of exactly the low ids |
| RehashDir.NextFree | openssl-1.1.0e/apps/rehash.c:347-348 | the search stops at the least unset bit from where it starts |
| RehashDir.PlaceEntry | openssl-1.1.0e/apps/rehash.c:338-384 | one entry's action on the directory and the mask is the planned one |
| RehashDir.Place | openssl-1.1.0e/apps/rehash.c:336-387 | the second walk carries out the plan, and adds the new ids to the mask |
| RehashDir.ProcessBucket | openssl-1.1.0e/apps/rehash.c:330-387 | a bucket's processing is exactly the plan for whatever the mask held before, and so is the mask it leaves |
| RehashDir.ViewsAfter | openssl-1.1.0e/apps/rehash.c:338-384 | the links of the bucket's own key change as the plan says, those of other keys not at all |
| Serials.SpellIsOk | openssl-1.1.0e/apps/ca.c:1611-1614 | a serial as written to a row passes the load check and means the same number |
| Serials.SpellText | openssl-1.1.0e/apps/ca.c:1611-1614 | the text is in capital letters, two digits a byte, with no zero byte in front but for zero itself, and "-" for a negative one |
| Serials.SerialOkIff | openssl-1.1.0e/apps/ca.c:657-675 | a serial loads iff it is pairs of hexadecimal digits, at least one, after a "-" or nothing |
| Serials.SameSerialSameValue | openssl-1.1.0e/apps/apps.c:1295-1303 | serials the index compares equal are equal numbers |
| CaDb.InsertKeepsInv | openssl-1.1.0e/crypto/txt_db/txt_db.c:229-263 | an insertion that succeeds keeps both indexes good, and the rows loadable |
| CaDb.StepKeepsInv | openssl-1.1.0e/apps/ca.c:1824-1852 | issue, revoke, add-valid, expire and save-and-load each keep the index loadable and move rows only as allowed |
| CaDb.RevokeKeepsInv | openssl-1.1.0e/apps/ca.c:2022-2113 | the recursive revocation keeps it, an unknown certificate being added first |
| CaDb.RunKeepsInv | openssl-1.1.0e/apps/ca.c:639-676 | every index reached from one that loads passes the load checks again, serials unique modulo leading zeros |
| CaDb.MovesByKind | openssl-1.1.0e/apps/ca.c:2092-2105 | rows move only V to E, V to R and E to R; revoked rows and their strings never change |
| CaDb.IssueLoadsIff | openssl-1.1.0e/apps/ca.c:653-656 | what is issued leaves a loadable index iff the expiry date passes the date check |
| CaDb.RowRefusedIff | openssl-1.1.0e/apps/ca.c:639-676 | why a row does not load |
| CaDb.IssueIff | openssl-1.1.0e/apps/ca.c:1611-1852 | a certificate is issued iff its serial and, where that matters, its name are free; it is then the last row, valid and named |
| CaDb.RevokeKnownIff | openssl-1.1.0e/apps/ca.c:2085-2107 | a certificate in the index is revoked iff the name is the row's, the row is not revoked yet, and the request is acceptable; only that row changes, and a refusal changes nothing |
| CaDb.RevokeUnknownIff | openssl-1.1.0e/apps/ca.c:2049-2083 | one that is not is added iff its name does not clash, and stays added when the revocation is then refused |
| CaCommands.CheckRows | openssl-1.1.0e/apps/ca.c:639-676 | the row loop of a load accepts iff every row is good |
| CaCommands.CheckSerial | openssl-1.1.0e/apps/ca.c:657-675 | the digit loop accepts an even number, at least two, of hexadecimal digits after any '-' |
| CaCommands.Index.Insert | openssl-1.1.0e/crypto/txt_db/txt_db.c:229-263 | insertion on mutable rows is the insertion function |
| CaCommands.Index.DoIssue | openssl-1.1.0e/apps/ca.c:1611-1852 | issuing on mutable rows is the issue function |
| CaCommands.Index.DoRevoke | openssl-1.1.0e/apps/ca.c:2022-2113 | revocation on mutable rows is the revoke function |
| CaCommands.Index.DoUpdateDb | openssl-1.1.0e/apps/ca.c:2206-2238 | the sweep on mutable rows is the expire function, and its result the number of rows marked |
| CaExpiry.ExpiredIsBefore | openssl-1.1.0e/apps/ca.c:2211-2225 | on UTCTime dates the comparison is the order of instants in the window 1950-2049 of section 4.1.2.5.1 of RFC 5280 |
| CaExpiry.SweepMarks | openssl-1.1.0e/apps/ca.c:2206-2238 | a row is marked iff it is valid and its instant is at or before now, and the count is the number of marks |
| CaExpiry.SweepTwice | openssl-1.1.0e/apps/ca.c:2206-2238 | two sweeps are one at the later time, and their counts add up |
| CaExpiry.GeneralizedExpired | openssl-1.1.0e/apps/ca.c:2195-2232 | what the sweep decides for any GeneralizedTime, by its first twelve digits: it takes them for those of a UTCTime |
| CaExpiry.GeneralizedVerdict | openssl-1.1.0e/apps/ca.c:2211-2225 | the decision is right iff now is not between the date's instant and the one it is taken for |
| CaExpiry.CenturyMarkedFrom2021 | openssl-1.1.0e/apps/ca.c:2211-2225 | every GeneralizedTime of 2000 to 2099 counts as expired from 2021 to 2049 |
| CaExpiry.LateYearsMarked | openssl-1.1.0e/apps/ca.c:2211-2232 | every one from the year 5000 on counts as expired from 2000 to 2049 |
| CaExpiry.MarkedTooEarly | openssl-1.1.0e/apps/ca.c:2211-2232 | two such dates: the end of 9999 and the first of January 2030 |
| CaExpiry.GoodUntil2050MarkedIn2021 | openssl-1.1.0e/apps/ca.c:2216-2221 | dates in 2050 count as expired in 2021 while they are good |
| CaStatus.GetCertificateStatus | openssl-1.1.0e/apps/ca.c:2115-2181 | the padded, upper-cased buffer is looked up, and the query succeeds iff the row is V, R, E or S |
| CaStatus.QueryFindsIff | openssl-1.1.0e/apps/ca.c:2127-2149 | a hexadecimal query finds a serial iff it is that number, not negative, and spelled in upper case; any other query iff the row is spelled like it, in upper case and without leading zeros |
| CaStatus.SpelledIsFound | openssl-1.1.0e/apps/ca.c:2127-2149 | a serial as the program spells it is found by any hexadecimal spelling of its number |
| CaStatus.NegativeQueries | openssl-1.1.0e/apps/ca.c:2127-2149 | "-01" finds the row "-01" though it is padded, and "-1" does not |
| CaPolicy.GetIndexByObj | openssl-1.1.0e/crypto/x509/x509name.c:65-83 | the next entry of a type after a position, or -1 iff there is none |
| CaPolicy.FindInCa | openssl-1.1.0e/apps/ca.c:1525-1552 | the inner loop finds a CA entry of the type with an equal string iff there is one |
| CaPolicy.ApplyItem | openssl-1.1.0e/apps/ca.c:1480-1569 | one policy item is met iff its declarative reading says so, and appends the request's attributes of its type in order |
| CaPolicy.ApplyPolicy | openssl-1.1.0e/apps/ca.c:1479-1578 | the whole loop terminates and succeeds iff every item is met; the subject takes the request's entries at all pairs of an item and an entry of its type, in lexicographic order, one to a part |
| CaPolicy.OneOrder | openssl-1.1.0e/apps/ca.c:1479-1570 | there is only one way to go through all those pairs in order |
| CaPolicy.RefusedIff | openssl-1.1.0e/apps/ca.c:1480-1553 | a policy is refused iff an item has an unknown type or kind, a needed type is missing, or a value to be matched is not in the CA's name |
| CaPolicy.SelectedCount | openssl-1.1.0e/apps/ca.c:1479-1570 | every attribute of the request is in the subject once for each item naming its type, and nothing else is |
| CaPolicy.CompletePolicyPermutes | openssl-1.1.0e/apps/ca.c:1479-1570 | a policy naming every type once only reorders the request |
| CaPolicy.SelfSigned | openssl-1.1.0e/apps/ca.c:1471-1474 | with the request's own name as the CA's, a well-formed policy fails only for a missing attribute |
| Revocation.FindReason | openssl-1.1.0e/apps/ca.c:2279-2284 | the loop finds the first reason name that matches, letter case aside |
| Revocation.MakeRevocationStr | openssl-1.1.0e/apps/ca.c:2266-2350 | the string built, or the refusal, for each kind of revocation |
| Revocation.UnpackRevInfo | openssl-1.1.0e/apps/ca.c:2455-2565 | what the parser leaves in each out-parameter, on success and on each error |
| Revocation.AcceptedIff | openssl-1.1.0e/apps/ca.c:2274-2324 | a request is accepted iff its argument names a reason, an object identifier or a time as its kind demands |
| Revocation.ReasonIsRfc | openssl-1.1.0e/apps/ca.c:2499-2517 | the reason numbers are the codes of section 5.3.1 of RFC 5280, removeFromCRL remapped to 8 |
| Revocation.UnpackUndoesMake | openssl-1.1.0e/apps/ca.c:2455-2565 | whatever is accepted reads back as the same reason and argument, commas included |
| Revocation.RevocationText | openssl-1.1.0e/apps/ca.c:2334-2347 | the text written: time, the reason under its own name, and the argument, separated by commas |
| Revocation.UnpackIs | openssl-1.1.0e/apps/ca.c:2455-2565 | what the parser leaves for any field of one, two or three parts: nothing of a bad time, the time alone of a reason it does not know or an argument it cannot use |
| Revocation.FieldsAreText | openssl-1.1.0e/apps/ca.c:2470-2490 | every field is the text of the parts it is cut into |
| Ocsp.MakeResponse | openssl-1.1.0e/apps/ocsp.c:866-960 | malformed without ids, internal error for an unknown digest, else a list of exactly the ids with a status, in request order, each with its status |
| Ocsp.AnsweredIff | openssl-1.1.0e/apps/ocsp.c:892-948 | an answer says a status of an id iff the id was asked for and has that status |
| Ocsp.AllAnswered | openssl-1.1.0e/apps/ocsp.c:892-948 | if every id has a status the answer is one status per id, position by position |
| Ocsp.StatusOfOurs | openssl-1.1.0e/apps/ocsp.c:918-948 | what is added for an id of the CA, an invalidity date before a hold instruction |
| Ocsp.StatusFits | openssl-1.1.0e/apps/ocsp.c:911-948 | good, revoked and unknown are reported for exactly the ids whose row is valid, revoked with a date that reads, or missing, or that are not the CA's |
| Ocsp.RevokedStatusIff | openssl-1.1.0e/crypto/ocsp/ocsp_srv.c:117-127 | a revoked row gets a status iff its revocation date is a UTCTime |
| Ocsp.IssuedUntilExpired | openssl-1.1.0e/apps/ocsp.c:918-948 | an issued certificate is reported good after a sweep iff its instant is still to come, and otherwise gets no status |
| Ocsp.RevokedIsReported | openssl-1.1.0e/apps/ocsp.c:918-947 | after a revocation that succeeds every answer to a request for that certificate says it is revoked with the requested reason, time and argument, and nothing else of it |
| CopyExtensions.Certificate.DeleteAll | openssl-1.1.0e/apps/apps.c:1055-1060 | the do-while loop deletes every extension of a type and no other |
| CopyExtensions.Certificate.CopyAll | openssl-1.1.0e/apps/apps.c:1035-1073 | for every type: the certificate's own when adding, else the request's, first when adding and last when copying all |
| CaFiles.FileSystem.Rename | openssl-1.1.0e/apps/apps.c:1442-1457 | a rename moves one file, or fails and changes nothing; ENOENT only without a source |
| CaFiles.SaveSerial | openssl-1.1.0e/apps/apps.c:1371-1418 | only the suffixed name is written, and holds the serial on success unless the write was cut short without an error; it fails only for a long name or a failed write |
| CaFiles.SaveIndex | openssl-1.1.0e/apps/apps.c:1560-1604 | only the two new names are written, and hold index and attributes on success unless a write was cut short without an error; it fails only for a long name, an empty index or a failed write |
| CaFiles.RotateSerial | openssl-1.1.0e/apps/apps.c:1421-1462 | in every state the old serial file survives; success installs the new one, and comes if the names fit, the new file is there and no operation fails; if the file was there one failure is always undone, and without failures all is put back iff no stale old file stands in for a missing one |
| CaFiles.RotateIndex | openssl-1.1.0e/apps/apps.c:1606-1670 | the same for index and attributes: whatever renames fail, both survive in every state; success comes if the names fit, the new files are there and no operation fails; if both main files were there one failure is always undone |
| CaFiles.RenameAttr | openssl-1.1.0e/apps/apps.c:1648-1666 | the attribute half with its two rollbacks |
| CaFiles.IndexNamesApart | openssl-1.1.0e/apps/apps.c:1621-1625 | the six names of a rotation are distinct |
| CaCommit.AheadNoClash | openssl-1.1.0e/apps/ca.c:1630-1639 | with the serial ahead of the index no serial is ever found taken |
| CaCommit.StopsIff | openssl-1.1.0e/apps/ca.c:1620-1639 | then only a bad request or a taken name stops the command |
| CaCommit.BatchKeepsAhead | openssl-1.1.0e/apps/ca.c:864-945 | after a batch the serial is ahead of the grown index, by one step per certificate |
| CaCommit.BatchRows | openssl-1.1.0e/apps/ca.c:864-945 | the rows added are one valid row for each request signed, in order, with consecutive serials |
| CaCommit.BatchGoesIff | openssl-1.1.0e/apps/ca.c:864-945 | with the serial ahead a batch goes through iff no request is bad or has a name taken by the index or by a request before it |
| CaCommit.CertifyEach | openssl-1.1.0e/apps/ca.c:864-945 | the request loop on the mutable index is the batch function |
| CaCommit.SerialRotationAhead | openssl-1.1.0e/apps/ca.c:1037-1040 | in every state of the serial rotation the stored serial exceeds every stored row |
| CaCommit.IndexRotationAhead | openssl-1.1.0e/apps/ca.c:1042-1043 | and in every state of the index rotation |
| CaCommit.Commit | openssl-1.1.0e/apps/ca.c:975-1043 | from save to rotation, failures and rollbacks included, the stored serial stays ahead and both old files survive a failure; success stores the new pair, and keeps the serial ahead, iff no write was cut short without an error, and stores the attributes; without failures it succeeds iff the names fit, there are rows and the certificates are written |
| CaCommit.SignAll | openssl-1.1.0e/apps/ca.c:864-1043 | the whole command keeps the serial ahead in every state, changes nothing unless something was signed and confirmed, stores the batch's result and the database's own attribute on success, loses no old file on failure, and succeeds when nothing fails and the names fit |
| CaCommit.ReplaceIndex | openssl-1.1.0e/apps/ca.c:698-704 | the index-only commit: the serial stays ahead in every state if it is above the new rows, index and attributes are stored on success, and the old index survives a failure |
| CaCommit.RevokeBelowIff | openssl-1.1.0e/apps/ca.c:2049-2083 | revoking or adding keeps the serial ahead iff the certificate was known or its serial has been passed |
| CaCommit.UpdateDatabase | openssl-1.1.0e/apps/ca.c:689-709 | the command that marks expired rows stores the swept index and the attributes iff a row was marked, and the serial stays ahead in every state |
| CaCommit.RevokeCommand | openssl-1.1.0e/apps/ca.c:1191-1214 | the revoke command stores the revocation's rows, or changes nothing if it is refused; afterwards the serial is ahead iff the write was whole and the certificate was known or passed |
| DistinguishedNames.StringAt | openssl-1.1.0e/apps/apps.c:1762-1769 | the buffer is read up to its NUL |
| DistinguishedNames.CollectType | openssl-1.1.0e/apps/apps.c:1730-1731 | the type up to '=' is copied to the front of the buffer |
| DistinguishedNames.CollectValue | openssl-1.1.0e/apps/apps.c:1742-1755 | the value is copied with escapes dropped up to an unescaped separator; no write leaves the buffer |
| DistinguishedNames.ParseName | openssl-1.1.0e/apps/apps.c:1705-1781 | the whole parser on its buffer of input length plus one is the reference parser |
| DistinguishedNames.ParseUndoesPrint | openssl-1.1.0e/apps/apps.c:1705-1781 | for types without '=' and any values, however their characters are escaped and with a separator more or not, parsing gives back types, values and joins |
| DistinguishedNames.ParsesIff | openssl-1.1.0e/apps/apps.c:1705-1781 | a text parses to a name iff it is such a writing of pieces that build the name |
| DistinguishedNames.BuildIs | openssl-1.1.0e/apps/apps.c:1762-1772 | a name is built iff no value is refused for a known type; its entries are the known pieces in order, neighbours in one part iff joined, and an unknown piece never makes the parse fail |
| Protos.NextProtosParse | openssl-1.1.0e/apps/apps.c:1880-1905 | succeeds iff shorter than 65535 with every piece at most 255; the output is the length-prefixed list of the pieces, each byte written once |
| Protos.Fill | openssl-1.1.0e/apps/apps.c:1891-1901 | the back-patching loop, byte by byte |
| Protos.DecodeUndoesEncode | openssl-1.1.0e/apps/apps.c:1871-1878 | the wire format of section 3.1 of RFC 7301 decodes to exactly the pieces |
| Protos.PiecesOfJoin | openssl-1.1.0e/apps/apps.c:1872-1873 | names without commas, joined by commas, are the pieces |
| Protos.StandardIff | openssl-1.1.0e/apps/apps.c:1891-1901 | the output is one the standard allows iff no piece is empty |
| Options.ScanUndoesRender | openssl-1.1.0e/apps/opt.c:595-747 | options written as -name value, -name=value or --name come back in order with their values, and the rest is left exactly |
| Options.NextGiven | openssl-1.1.0e/apps/opt.c:605-740 | one call reads one written option |
| Options.NextTyped | openssl-1.1.0e/apps/opt.c:642-740 | any value, joined or the next word, is taken, and the option comes back unless the value is not of its type, which is an error; the word is cut in place and the flag set |
| Options.NextStops | openssl-1.1.0e/apps/opt.c:606-618 | a call stops at "--", past it, or before a word that is no option |
| Options.NextDash | openssl-1.1.0e/apps/opt.c:611-629 | a lone "-" is an option with an empty name, not a plain word |
| Options.NextUnwantedValue | openssl-1.1.0e/apps/opt.c:634-639 | -name=value is an error for an option that takes none |
| Options.NextMissingValue | openssl-1.1.0e/apps/opt.c:644-649 | an option in need of a value is an error as the last word |
| Options.NextUnknownName | openssl-1.1.0e/apps/opt.c:741-746 | a name not in the table is handed on with the name and any '=value' set, or is an error; the next word is not taken |
| Options.FewCalls | openssl-1.1.0e/apps/opt.c:605-618 | whatever the words, there are at most argc calls |
| OptScanner.Scanner.constructor | openssl-1.1.0e/apps/opt.c:116-165 | the scan starts at word 1, with the entry for unknown options found |
| OptScanner.Scanner.Cut | openssl-1.1.0e/apps/opt.c:621-627 | the word in argv is cut at '=', and name, flag and value are set |
| OptScanner.Scanner.Lookup | openssl-1.1.0e/apps/opt.c:628-746 | the table loop: value taken, checked, or refused; unknown options handed on |
| OptScanner.Scanner.OptNext | openssl-1.1.0e/apps/opt.c:595-747 | one call on the static variables is the scanning function |
| OptScanner.Scanner.OptNumRest | openssl-1.1.0e/apps/opt.c:774-782 | counts the words that are left |
| OptScanner.ReadOptions | openssl-1.1.0e/apps/opt.c:595-771 | the loop of every command: results, final return and rest as the scanning function says, in fewer than argc results |
| Cms.SignersAndKeys | openssl-1.1.0e/apps/cms.c:478-513 | on success the signers are the -signer arguments and the keys used the -inkey arguments, each once and in order |
| Cms.KeyoptsReach | openssl-1.1.0e/apps/cms.c:535-564 | entry indices strictly increase, and a signer's key options are exactly those read while it was pending |
| Cms.KeyoptIsPending | openssl-1.1.0e/apps/cms.c:536-545 | the pair a key option goes to has the signer and key that were pending when it was read |
| Cms.FinishUndoesRender | openssl-1.1.0e/apps/cms.c:478-627 | a command line of groups is read as those pairs and key options |
| CmsAccept.AcceptedIff | openssl-1.1.0e/apps/cms.c:478-627 | the command signs with these pairs iff signing is the operation, every key option and recipient is in place, and signers and keys can be cut into these pairs, each key next to its signer, before or after it |
| CmsAccept.KeyThenSigner | openssl-1.1.0e/apps/cms.c:495-513 | -inkey k -signer s is the pair of s and k |
| CmsAccept.RecipOpts | openssl-1.1.0e/apps/cms.c:535-564 | when encrypting, a recipient's key options are exactly those read after it and before the next |
| CmsArgs.ParamList.Add | openssl-1.1.0e/apps/cms.c:550-563 | the linked list grows at its tail, or its last entry takes the option |
| CmsArgs.ParamList.Find | openssl-1.1.0e/apps/cms.c:939-944 | the walk finds the first entry with the index |
| CmsArgs.Args.OnSigner | openssl-1.1.0e/apps/cms.c:478-494 | a pending signer is finished, with its own file if it has no key |
| CmsArgs.Args.OnInkey | openssl-1.1.0e/apps/cms.c:495-513 | a pending key finishes a pair, or is an error without a signer |
| CmsArgs.Args.OnKeyopt | openssl-1.1.0e/apps/cms.c:535-564 | the index is counted from what is pending and finished, or from the recipients when encrypting, and the option stored under it |
| CmsArgs.Args.OnEnd | openssl-1.1.0e/apps/cms.c:598-627 | the last pair is appended, and two lists of equal length remain |
| CmsArgs.SigningCommand | openssl-1.1.0e/apps/cms.c:478-944 | signers, key files and looked-up key options of the whole command line |
| Excert.GroupsAreSections | openssl-1.1.0e/apps/s_cb.c:900-955 | every option belongs to the most recent group, and formats carry over from group to group |
| Excert.AcceptedIff | openssl-1.1.0e/apps/s_cb.c:928-953 | the options are accepted iff every group has at most one key and one chain and all formats parse |
| ExcertList.List.Prepend | openssl-1.1.0e/apps/s_cb.c:823-842 | the new node heads the list, next and prev staying inverse, formats taken over |
| ExcertList.List.ArgsExcert | openssl-1.1.0e/apps/s_cb.c:900-962 | one option on the doubly linked list, and what each error leaves |
| ExcertList.List.Walk | openssl-1.1.0e/apps/s_cb.c:784-814 | to the end by next and back by prev visits the groups in command-line order |
| ExcertList.ReadAndWalk | openssl-1.1.0e/apps/s_cb.c:784-962 | the same after any command line |
| UrlDecode.Urldecode | openssl-1.1.0e/apps/ocsp.c:1034-1053 | in place, the result is the decoded text and its length, or -1 iff some '%' is not followed by two digits |
| UrlDecode.RefusedIff | openssl-1.1.0e/apps/ocsp.c:1040-1049 | from any position the decoder refuses iff a malformed '%' is still to come |
| UrlDecode.DecodeUndoesSpelling | openssl-1.1.0e/apps/ocsp.c:1031-1053 | bytes spelled plainly or as %xx, in either case, decode to themselves |
| Md5Crypt.SourceDest | openssl-1.1.0e/apps/passwd.c:383-387 | the stride-6 walk modulo 17 with two fixed bytes is a permutation of 16 places, with its inverse |
| Md5Crypt.Permute | openssl-1.1.0e/apps/passwd.c:382-387 | the loop computes that permutation |
| Md5Crypt.Transform | openssl-1.1.0e/apps/passwd.c:393-410 | '$', the 22 characters of the digest and a NUL go to the buffer, what is before stays |
| Md5Crypt.DecodeUndoesEncode | openssl-1.1.0e/apps/passwd.c:377-410 | every digest can be read back from its 22 characters |
| Md5Crypt.EncodeIsCrypt | openssl-1.1.0e/apps/passwd.c:382-404 | the text is that of crypt(3): bytes (0,6,12), (1,7,13), (2,8,14), (3,9,15), (4,10,5) as 24-bit numbers, six bits a character from the low end |
| Md5Crypt.EncodeTail | openssl-1.1.0e/apps/passwd.c:407-408 | and byte 11 last, in two characters |

## Left out

- The C# server, and the single-command drivers of `apps/`: plumbing around library calls.
- Rehash: directory listing and the freeing of entries; unlink and symlink are taken to succeed; the hash and digest
  of a file are given.
- RehashDir.ViewsAfter: sees the link names as the program prints them; that other names stay is
  `RehashScan.OthersStay`, and what a scan makes of them `RehashScan.ScannedIff`.
- RehashRun.SecondRunChangesNothing: asks for a directory in which every name that parses is a printed one.
- RehashDir.ProcessBucket: reports that it could not finish when the search runs off the 256-bit mask, where the C
  code would read past it; above 256 needed entries the same holds of the memset.
- Row types are modelled by their first character, which is all the program tests.
- The check for a taken name before signing looks up a name that is not set yet, so it never matches; a taken name is
  found by the insertion, as modelled.
- The certificate files of a commit: whether they can be written is a parameter, and they are not files of the model.
- CaCommit.SignAll: requires both main files for the serial to be ahead of; a random first serial (`-create_serial`)
  is not modelled.
- CaCommit.Commit: requires the names derived from the serial file and from the index file to be disjoint, which the
  program takes for granted.
- The hash tables of TXT_DB are lookups over the rows.
- ExcertList.List.Walk: the certificate checks and SSL calls made at each node are not modelled.
- Cms: the other options of the command, and loading of certificates and keys.
- Memory allocation failures everywhere.
- `opt_init`'s assertions on a table are a hypothesis where they matter.
- The digest rounds of md5crypt, DES crypt, and the formatting of its prefix.
- `chopup_args`, `app_RAND_load_files` and other buffer glue without a deep property.
