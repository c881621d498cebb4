# RMDB and its TPC-C tester, modelled in Dafny

This project models two programs that live in one repository. Dafny proves the model's properties.

**The TPC-C client (`RDSTester`, Python).** It has four parts:
- `mysql/sql.py` builds SELECT, INSERT, UPDATE and DELETE statements from descriptors. It also decodes the server's pipe-delimited table replies into rows.
- `mysql/driver.py` runs the five TPC-C transactions (clauses 2.4 to 2.8 of the TPC-C standard specification) as scripts of statements. A script stops at the first reply that says `abort`.
- `util.py` draws the transaction parameters, NURand included (clause 2.1.6).
- `tester.py` picks each transaction's kind by weight and retries it until it commits.

The server and the random draws are parameters:
- the server is a function from statement number to reply text;
- every random draw is an explicit argument.

Python's `eval` of a reply cell is a partial parse. Where the parse fails, the script takes its `except` default.

**The RMDB storage engine (`src`, C++).** The model covers:
- the B+-tree node operations and the split and root adjustment;
- the buffer pool's page table, free list, pin counts and LRU list;
- the disk manager's files, page counters and write loops;
- the record scan over slot bitmaps;
- the lock manager's compatibility tables and request queues;
- transaction begin, commit and abort, with abort undoing the write set last to first;
- the log buffer's LSNs, and redo and undo recovery;
- `Value` conversion and DATETIME checks;
- the catalog;
- the executors: sequential and index scans, sort, aggregates, nested-loop and hash joins, and the insert (with its CSV loader), update and delete executors.

Classes stand for the source's stateful objects, with the fields their methods update. Each method is proved against a function or predicate that specifies it, and lemmas state what the source promises about those functions.

Modules follow the source files:

| module | file | source |
|---|---|---|
| SqlClient, PyStr | sql_client.dfy, pystr.dfy | RDSTester/mysql/sql.py |
| TpccDriver | tpcc_driver.dfy | RDSTester/mysql/driver.py |
| TpccSchema | tpcc_schema.dfy | RDSTester/db/table_layouts.py |
| Workload | workload.dfy | RDSTester/util.py |
| Tester | tester.dfy | RDSTester/tester.py |
| IxNode | ix_node.dfy | src/index/ix_index_handle.cpp |
| BufferPool | buffer_pool.dfy | src/storage/buffer_pool_manager.cpp |
| Disk | disk.dfy | src/storage/disk_manager.cpp |
| RecordScan | rm_scan.dfy | src/record/rm_scan.cpp |
| Locking, Txn | lock_manager.dfy, txn.dfy | src/transaction/concurrency/lock_manager.cpp |
| TxnManager | transaction_manager.dfy | src/transaction/transaction_manager.cpp |
| Logging | log_manager.dfy | src/recovery/log_manager.cpp |
| Recovery | log_recovery.dfy | src/recovery/log_recovery.cpp |
| Values | values.dfy | src/common/common.h |
| Catalog | catalog.dfy | src/system/sm_manager.cpp |
| ExecManager | exec_manager.dfy | src/execution/execution_manager.cpp |
| SortExec | sort_exec.dfy | src/execution/execution_sort.h |
| Conditions, SeqScan | conditions.dfy, seq_scan.dfy | src/execution/executor_seq_scan.h |
| IndexScan | index_scan.dfy | src/execution/executor_index_scan.h |
| NestedLoopJoin | nlj.dfy | src/execution/executor_nestedloop_join.h |
| HashJoin, HashPartition, HashJoinExec | hash_join.dfy, hash_partition.dfy, hash_join_exec.dfy | src/execution/executor_hash_join.h |
| LoadFile, LoadValues, FieldRead, FieldValues, InsertExec | load_file.dfy, load_values.dfy, field_read.dfy, field_values.dfy, insert_exec.dfy | src/execution/executor_insert.h |
| UpdateExec | update_exec.dfy | src/execution/executor_update.h |
| DeleteExec | delete_exec.dfy | src/execution/executor_delete.h |
| Tables, IndexWrites | tables.dfy, index_writes.dfy | the record files and indexes the executors change |
| Wrappers, Errors | wrappers.dfy, errors.dfy | Option, Result, bytes; the engine's error kinds |

Where the source has a defect, the model keeps the code as written next to the corrected behaviour; see "## Findings".

## Model

| member | source | states |
|---|---|---|
| Disk.Written | src/storage/disk_manager.cpp:29-62 | the write() loop never undoes progress nor writes more than asked |
| Disk.DiskManager.constructor | src/storage/disk_manager.cpp:20 | every fd starts with page counter 0, no file is open and there is no log file |
| Disk.WrittenAll | src/storage/disk_manager.cpp:29-62 | if every write() makes progress, n answers write all n bytes |
| Disk.WrittenNone | src/storage/disk_manager.cpp:29-62 | an error from the first write() writes nothing |
| Disk.Overwrite | src/storage/disk_manager.cpp:29-62 | the written prefix holds the new bytes; the rest of the old page stays |
| Disk.ReadLogCount | src/storage/disk_manager.cpp:284-300 | -1 exactly when the offset lies past the end of the log; otherwise the bytes left, capped at size |
| Disk.DiskManager.AllocatePage | src/storage/disk_manager.cpp:98-102 | returns the fd's counter and advances only that counter |
| Disk.DiskManager.CreateFile | src/storage/disk_manager.cpp:142-158 | an existing path is FileExistsError; otherwise the file now exists |
| Disk.DiskManager.OpenFile | src/storage/disk_manager.cpp:191-213 | an open path is FileNotClosedError and a missing file FileNotFoundError; otherwise both maps gain the fd and stay inverse |
| Disk.DiskManager.CloseFile | src/storage/disk_manager.cpp:219-238 | a closed fd is FileNotOpenError; otherwise both map entries go and nothing else |
| Disk.DiskManager.DestroyFile | src/storage/disk_manager.cpp:164-183 | an open file is refused, a missing one is FileNotFoundError; otherwise it is removed |
| Disk.DiskManager.GetFileFd | src/storage/disk_manager.cpp:269-274 | the fd of an open file unchanged, otherwise the file is opened now |
| Disk.DiskManager.WritePage | src/storage/disk_manager.cpp:29-62 | the page holds the bytes the write() loop got out; success exactly when all of them went out |
| Disk.DiskManager.ReadPage | src/storage/disk_manager.cpp:71-91 | the first n bytes of the stored page; a short read is InternalError |
| Disk.DiskManager.LogSize | src/storage/disk_manager.cpp:246-250 | -1 exactly when there is no log file |
| Disk.DiskManager.ReadLog | src/storage/disk_manager.cpp:284-300 | the count from ReadLogCount and the log bytes from the offset on |
| Disk.DiskManager.WriteLog | src/storage/disk_manager.cpp:308-332 | the log grows by the bytes written, by all of data on success |
| Disk.OpenCloseRestores | src/storage/disk_manager.cpp:191-238 | opening a file and then closing its fd leaves both maps as they were |
| Tables.Key | src/transaction/transaction_manager.cpp:130-134 | an index key is col_tot_len bytes long |
| Tables.KeyOfEqualColumns | src/transaction/transaction_manager.cpp:130-134 | records that agree on every index column have the same key |
| Tables.InsertRowKeeps | src/transaction/transaction_manager.cpp:163-176 | putting a record at a free rid, with its keys free, keeps every index matching the records |
| Tables.DropKeyKeeps | src/transaction/transaction_manager.cpp:127-136 | dropping a record's key from a matching index leaves an index matching the other records |
| Tables.DeleteRowKeeps | src/transaction/transaction_manager.cpp:121-150 | deleting a record keeps the indexes consistent |
| Tables.UpdateRowKeeps | src/transaction/transaction_manager.cpp:177-211 | updating a record whose new keys are free keeps the indexes consistent |
| Tables.DeleteUndoesInsert | src/transaction/transaction_manager.cpp:121-150 | deleting the row an insert put at a free rid gives back the table |
| Tables.InsertUndoesDelete | src/transaction/transaction_manager.cpp:151-176 | reinserting a deleted row's image at its rid gives back the table |
| Tables.PutKeyBack | src/transaction/transaction_manager.cpp:151-166 | dropping a record's key and putting it back gives back the index |
| Tables.SwapKeyBack | src/transaction/transaction_manager.cpp:186-199 | swapping a record's key for a free one and back gives back the index |
| Tables.UpdateUndoesUpdate | src/transaction/transaction_manager.cpp:177-211 | restoring the saved image gives back the table, with both keys swapped back |
| Tables.WriteOf | src/execution/executor_insert.h:189-190 | the write record has the write's table and rid; an insert keeps no image, a delete or update keeps the record as it was |
| Tables.DoKeeps | src/execution/executor_delete.h:39-76 | any write keeps every open table consistent and keeps the set of tables |
| Tables.UndoUndoesDo | src/transaction/transaction_manager.cpp:119-215 | undoing the write record of a write gives back the database |
| Tables.RunKeeps | src/transaction/transaction_manager.cpp:119-215 | every state along a run of writes is consistent |
| Tables.UndoAllRestores | src/transaction/transaction_manager.cpp:119-215 | undoing a run's write set, last record first, gives back the database the run started from |
| Txn.TableId | src/transaction/concurrency/lock_manager.cpp:372 | a table lock id names the table's fd and is of kind TABLE |
| FieldRead.ReadField | src/execution/executor_insert.h:100-101 | the field read is exactly the file's bytes up to the next ',', newline or end of file, and the stream stands at that stop |
| FieldRead.CharRead | src/execution/executor_insert.h:87-96 | a char that is not a stop is the byte at that place of the file, and the field goes on after it |
| FieldRead.LoadThenSkip | src/execution/executor_insert.h:102-106 | the field becomes FieldValue of its column; on a ',' the stream moves past it, on a newline or end of file it stays |
| FieldValues.FieldValue | src/common/common.h:54-83 | (corrected; the source wraps, see Findings) a value of the column's type within its range; out of range is ResultOutOfRangeError and only for INT/BIGINT; a STRING or DATETIME field is copied into the column's length |
| FieldValues.NumberFieldLoads | src/common/common.h:54-71 | an INT or BIGINT written out in decimal loads back as itself |
| FieldValues.LoadField | src/common/common.h:54-83 | setData on a fresh value gives FieldValue |
| LoadFile.AsChar | src/execution/executor_insert.h:87-96 | a byte read as a signed char; it equals EOF exactly for byte 0xff |
| LoadFile.ByteOf | src/execution/executor_insert.h:100-101 | the byte values_buf_ receives for a char read is the byte the char came from |
| LoadFile.Stream | src/execution/executor_insert.h:87-96 | getchar_from_buffer at a position: EOF exactly past the end of the file or at a 0xff byte |
| LoadFile.Block | src/execution/executor_insert.h:82-85 | fread's block b: at most 4096 bytes, exactly the file's bytes from b*4096 on |
| LoadFile.Reader.Open | src/execution/executor_insert.h:53-64 | the two buffers are filled and nothing is consumed yet |
| LoadFile.Reader.FillBuffer | src/execution/executor_insert.h:82-85 | the other buffer holds the next block of the file; the current one is untouched |
| LoadFile.Reader.GetChar | src/execution/executor_insert.h:87-96 | the char is the stream's char at the read position, and one char is consumed unless at the end |
| LoadFile.Reader.TakeChar | src/execution/executor_insert.h:93-95 | a char inside the current buffer is the stream's char there, and one char is consumed |
| LoadFile.Reader.NextBuffer | src/execution/executor_insert.h:88-92 | the buffers swap and the next block is loaded, with nothing consumed |
| LoadFile.Reader.SkipHeader | src/execution/executor_insert.h:66 | consumes up to and including the first newline, or to the end of a file without one |
| LoadFile.AtEnd | src/execution/executor_insert.h:82-96 | a buffer shorter than 4096 bytes is the last block of the file |
| LoadFile.SkipEnd | src/execution/executor_insert.h:66 | where the header skip stops lies within the file |
| LoadFile.SkipEndFirst | src/execution/executor_insert.h:66 | no line end before where the skip stops, and a newline (or 0xff) just before it |
| LoadFile.SkipAsWritten | src/execution/executor_insert.h:66 | the skip as written stops only just after a newline |
| LoadFile.HeaderSkipHangs | src/execution/executor_insert.h:66 | with no newline left in the file the skip as written never stops, whatever number of calls it gets |
| LoadFile.SkipAsWrittenAgrees | src/execution/executor_insert.h:66 | on a file with a newline and no 0xff byte before it, the skip as written stops where SkipHeader does |
| LoadFile.FieldEnd | src/execution/executor_insert.h:100-101 | a field ends at a ',', newline or EOF at or after its start |
| LoadFile.FieldEndFirst | src/execution/executor_insert.h:100-101 | no stop char lies inside a field |
| LoadFile.Fields | src/execution/executor_insert.h:98-112 | one row reads between one and the remaining number of fields, and consumes at least one char |
| LoadFile.ReadRow | src/execution/executor_insert.h:98-112 | get_values: no fields exactly at EOF (or with no columns), else it consumes chars; never more fields than columns |
| LoadFile.FieldEndAt | src/execution/executor_insert.h:100-101 | a field written without stop chars ends right after its bytes |
| LoadFile.FieldsOfJoined | src/execution/executor_insert.h:98-112 | the fields of a comma-joined line are read back as those fields |
| LoadFile.FirstOfLine | src/execution/executor_insert.h:87-96 | a written line does not start with the byte read as EOF |
| LoadFile.ReadsLine | src/execution/executor_insert.h:98-112 | a line written from fields reads back as those fields (round trip) |
| LoadValues.AllLoadLast | src/execution/executor_insert.h:100-106 | every field of a row loads exactly when the fields before the last load and the last one does |
| LoadValues.RowValues | src/execution/executor_insert.h:100-106 | the row's values exist exactly when every field loads, one per field; otherwise ResultOutOfRangeError |
| LoadValues.RowValuesAre | src/execution/executor_insert.h:103 | each value is FieldValue of its field under its column |
| LoadValues.RowValueAt | src/execution/executor_insert.h:103 | the value at k is FieldValue of field k under column k |
| LoadValues.RowValuesLast | src/execution/executor_insert.h:100-106 | a row's values are those of all fields but the last, then the last field's value |
| LoadValues.RowValuesStopAt | src/execution/executor_insert.h:104-107 | fields past where the row stops do not change its values |
| LoadValues.ReadValues | src/execution/executor_insert.h:98-112 | get_values: on a row, one value per column of that column's type and in range, and the read position advances; otherwise ResultOutOfRangeError or InvalidValueCountError |
| LoadValues.LoadsLine | src/execution/executor_insert.h:98-112 | a line of one field per column reads back as RowValues of those fields; a line with too few fields is InvalidValueCountError |
| LoadValues.GetValues | src/execution/executor_insert.h:98-112 | the loop over the buffered reader gives exactly ReadValues, and consumes what it reads |
| LoadValues.ReadColumns | src/execution/executor_insert.h:100-108 | the column loop from a position gives ReadValues from that position |
| LoadValues.ReadColumn | src/execution/executor_insert.h:100-108 | one turn of the column loop: an error is the row's error; otherwise the value is appended, and the row either ends or goes on at the next field |
| LoadValues.ColumnStep | src/execution/executor_insert.h:102-107 | a field ending at a newline, at EOF or at the last column ends the row; a ',' before more columns goes on to the next field |
| LoadValues.AtFieldFails | src/execution/executor_insert.h:103 | a field that does not load makes the row's error that field's error |
| LoadValues.ReadingGrows | src/execution/executor_insert.h:100-106 | the fields and values read so far grow together |
| LoadValues.RowValuesSnoc | src/execution/executor_insert.h:100-106 | appending a loaded field appends its value |
| LoadValues.ReadingEnds | src/execution/executor_insert.h:104-111 | a row that stops after all its fields have loaded ends with those values |
| LoadValues.ReadingFails | src/execution/executor_insert.h:103 | a field that fails to load ends the row with its error |
| InsertExec.Record | src/execution/executor_insert.h:118-134 | the record keeps the record size; a failure is StringOverflow, a datetime format error or IncompatibleType |
| InsertExec.PlaceKeeps | src/execution/executor_insert.h:133 | copying a value into one column's bytes leaves every other (disjoint) column's bytes alone |
| InsertExec.RecordLast | src/execution/executor_insert.h:122-134 | the record builds exactly when it builds for all columns but the last and the last value is accepted |
| InsertExec.AcceptedPrefix | src/execution/executor_insert.h:122-134 | every value is accepted exactly when those before the last are and the last is |
| InsertExec.RecordOk | src/execution/executor_insert.h:122-134 | the record builds exactly when every value converts to its column's type |
| InsertExec.RecordFields | src/execution/executor_insert.h:122-134 | every column of the built record holds its converted value's bytes |
| InsertExec.RecordStopsAt | src/execution/executor_insert.h:122-130 | a failure at column i leaves the columns after it out of account |
| InsertExec.BuildRecord | src/execution/executor_insert.h:122-134 | the conversion loop computes Record |
| InsertExec.RecordStep | src/execution/executor_insert.h:123-133 | one column: a conversion error or a type mismatch ends with that error, otherwise the value's bytes are placed at the column |
| InsertExec.FindDuplicate | src/execution/executor_insert.h:146-171 | a duplicate is found exactly when some index already holds the record's key |
| InsertExec.InsertOne | src/execution/executor_insert.h:174-211 | the row is inserted and every index gains its key; the write set gains the insert's record; with logging one insert log record is appended and becomes prevLsn |
| InsertExec.Next | src/execution/executor_insert.h:114-212 | a wrong value count is InvalidValueCountError; a conversion error is thrown; otherwise the table is X-locked, and the row goes in (with write record and log record) exactly when no unique index holds its key, and nothing changes otherwise |
| InsertExec.LoadKeeps | src/execution/executor_insert.h:114-227 | a load keeps the table consistent and keeps every row it already had |
| InsertExec.Load | src/execution/executor_insert.h:114-227 | the load loop inserts exactly the rows LoadFrom reads from the file, and ends with its result |
| InsertExec.LoadRow | src/execution/executor_insert.h:116-212 | one turn: either the load is over with LoadFrom's result, or one row went in and the rest of the load is unchanged |
| InsertExec.LoadStep | src/execution/executor_insert.h:116-212 | a row read moves the read position forward, and the rest of the load goes on from there |
| InsertExec.LoadFileInto | src/execution/executor_insert.h:40-72 | a load skips the header line, then loads the rows that follow |
| DeleteExec.DeleteOps | src/execution/executor_delete.h:42 | one delete per rid, in the order of rids_ |
| DeleteExec.DeleteOne | src/execution/executor_delete.h:45-72 | the row goes and every index loses its key; the write set gains the row's delete record with its image; with logging one delete log record is appended and becomes prevLsn |
| DeleteExec.Next | src/execution/executor_delete.h:39-76 | after the table's IX lock, the database is the run of one delete per rid and the write set grows by exactly that run's records; when the lock is refused nothing is written |
| DeleteExec.DeleteAll | src/execution/executor_delete.h:42-74 | the loop over rids_ performs the run of deletes and appends its write records |
| DeleteExec.DeleteRuns | src/execution/executor_delete.h:42-74 | on distinct rids of the table the run succeeds, keeps the database consistent, leaves exactly the other rows, and undoing its write set restores the database |
| IndexWrites.BuildKey | src/execution/executor_delete.h:50-54 | the key built column by column is the record's index key, col_tot_len bytes long |
| IndexWrites.DeleteEntries | src/execution/executor_delete.h:47-57 | each index loses the record's key and nothing else; none holds it afterwards |
| IndexWrites.InsertEntries | src/execution/executor_insert.h:200-216 | each index gains the record's key for the rid and nothing else |
| IndexWrites.DeletedRow | src/execution/executor_delete.h:45-72 | dropping the row and its keys is DeleteRow |
| IndexWrites.InsertedRow | src/execution/executor_insert.h:174-216 | placing the row and its keys is InsertRow |
| IndexWrites.DataLog | src/execution/executor_delete.h:64-65 | a data log record carries its kind, transaction, previous lsn, table and rid |
| IndexWrites.LogWrite | src/execution/executor_delete.h:63-71 | add_log_to_buffer gives the record the next lsn, which becomes the transaction's prevLsn; the log gains exactly that record |
| UpdateExec.AddTo | src/execution/executor_update.h:79-94 | a column-plus-value SET works on an INT or BIGINT column and keeps the record's length; any other type is "unsupported type" |
| UpdateExec.Write | src/execution/executor_update.h:94-96 | a SET write keeps the record's length |
| UpdateExec.SetStep | src/execution/executor_update.h:77-97 | one SET clause keeps the record's length |
| UpdateExec.SetRow | src/execution/executor_update.h:76-98 | all SET clauses in turn keep the record's length and give one converted clause per clause |
| UpdateExec.SetRowStopsAt | src/execution/executor_update.h:76-98 | once a clause fails, the clauses after it do not matter |
| UpdateExec.SetStepStable | src/execution/executor_update.h:78 | a clause already converted by the first row converts the same on every later row |
| UpdateExec.SetRowStable | src/execution/executor_update.h:76-98 | the clause list rewritten by the first row gives the same result on every later row as the original |
| UpdateExec.AddsInt | src/execution/executor_update.h:82-84 | an INT SET stores the 32-bit wrap-around of the old value plus the operand; other bytes stay |
| UpdateExec.AddsBigint | src/execution/executor_update.h:85-87 | a BIGINT SET stores the 64-bit wrap-around of the old value plus the operand; other bytes stay |
| UpdateExec.SetCopies | src/execution/executor_update.h:95-96 | a plain SET writes the converted value, padded to the column, into the column's bytes |
| UpdateExec.Olds | src/execution/executor_update.h:62 | the old tuples are the records at rids_, in order |
| UpdateExec.Updated | src/execution/executor_update.h:76-109 | new_tuple holds the SET result of each old tuple |
| UpdateExec.DropAll | src/execution/executor_update.h:63-75 | every index loses the old tuples' keys |
| UpdateExec.PutAll | src/execution/executor_update.h:161-167 | every index gains the given tuples' keys for their rids |
| UpdateExec.UpdateWrites | src/execution/executor_update.h:168-174 | one update write record per rid, with its old image |
| UpdateExec.DropRowsAt | src/execution/executor_update.h:63-75 | a key is left exactly when it was there and no old tuple has it, and it keeps its rid |
| UpdateExec.PutRowsAt | src/execution/executor_update.h:161-167 | a key is there afterwards exactly when it was or some tuple has it; other keys keep their rid |
| UpdateExec.PutRowsLast | src/execution/executor_update.h:161-167 | with distinct keys, each tuple's key leads to its own rid |
| UpdateExec.OverwriteAt | src/execution/executor_update.h:184 | each updated rid holds its new tuple |
| UpdateExec.RestoreIndex | src/execution/executor_update.h:191-197 | putting the old keys back after dropping them gives back the index |
| UpdateExec.RestoreKey | src/execution/executor_update.h:191-197 | key by key, the restored index agrees with the index before the update |
| UpdateExec.UpdateIndexKeeps | src/execution/executor_update.h:161-185 | records overwritten with the new tuples match the index with old keys dropped and new keys put |
| UpdateExec.ConflictRestores | src/execution/executor_update.h:187-197 | on a conflict the table's indexes come back exactly as they were |
| UpdateExec.UpdateKeeps | src/execution/executor_update.h:157-186 | without a conflict the updated table is consistent |
| UpdateExec.OutcomeKeeps | src/execution/executor_update.h:111-200 | either outcome keeps the database consistent; a conflict changes neither database nor write set |
| UpdateExec.ApplyOne | src/execution/executor_update.h:77-97 | the SET step on the tuple gives SetStep, with the converted value in range |
| UpdateExec.ApplySets | src/execution/executor_update.h:76-98 | the SET loop gives SetRow |
| UpdateExec.DropOldKeys | src/execution/executor_update.h:58-75 | the delete_entry loop gives DropAll of the old tuples |
| UpdateExec.PutEntries | src/execution/executor_update.h:164-166 | the insert_entry loop on one index gives PutRows |
| UpdateExec.PutKeys | src/execution/executor_update.h:161-167 | the insert_entry loops give PutAll |
| UpdateExec.LaterSame | src/execution/executor_update.h:139-144 | a later new tuple has the same key exactly when the memcmp loop finds one |
| UpdateExec.ClashIn | src/execution/executor_update.h:118-154 | the check on one index finds a clash exactly when Clash holds |
| UpdateExec.FindConflict | src/execution/executor_update.h:112-156 | is_index_conflict is set exactly when Conflict holds |
| UpdateExec.OverwriteStep | src/execution/executor_update.h:168-185 | overwriting k+1 rows is overwriting k rows then the next |
| UpdateExec.OverwriteElsewhere | src/execution/executor_update.h:168-185 | rows other than the rids keep their records |
| UpdateExec.UpdateOne | src/execution/executor_update.h:170-184 | the rid holds the new record, the write set gains its update record with the old image, and with logging one update log record is appended and becomes prevLsn |
| UpdateExec.WriteRows | src/execution/executor_update.h:168-185 | every rid holds its new tuple and the write set gains one record per rid |
| UpdateExec.Finish | src/execution/executor_update.h:157-200 | with no conflict the rows and new keys are written; on a conflict the old keys are put back and nothing else changes |
| UpdateExec.NextAsWritten | src/execution/executor_update.h:41-210 | as written: a SET that throws on the first row leaves that row's keys dropped from every index |
| UpdateExec.DropThenSet | src/execution/executor_update.h:58-110 | as written: the old keys are dropped before each row's SET runs |
| UpdateExec.Next | src/execution/executor_update.h:41-210 | a SET error on the first row is thrown with nothing changed; otherwise the Outcome: the update, or on a key conflict the database untouched |
| UpdateExec.RowOf | src/execution/executor_update.h:76-98 | after the first row the SET always succeeds, with the clauses the first row rewrote |
| UpdateExec.NewTuples | src/execution/executor_update.h:58-110 | the new tuples for all rows, or the first row's SET error |
| UpdateExec.OverflowingSetFails | src/execution/executor_update.h:78 | a string longer than its column makes the SET fail with StringOverflow |
| UpdateExec.ErrorLosesKey | src/execution/executor_update.h:62-78 | after a failing SET, the table with the first row's keys dropped is no longer consistent |
| Values.Wrap32 | src/common/common.h:58 | the 32-bit value congruent to v modulo 2^32; v itself when it fits |
| Values.Wrap64 | src/common/common.h:86-87 | the 64-bit value congruent to v modulo 2^64; v itself when it fits |
| Values.UnsignedLittleEndian | src/common/common.h:130-142 | reading back w little-endian bytes of n gives n modulo 256^w |
| Values.UnsignedAppend | src/common/common.h:130-142 | the value of a byte string is the value of its first part plus 256^len times that of the rest |
| Values.UnsignedBelow | src/common/common.h:130-142 | a byte string's value is below 256^len |
| Values.Int32Bytes | src/common/common.h:130-135 | set_int stores 4 bytes |
| Values.Int64Bytes | src/common/common.h:137-142 | set_bigint stores 8 bytes |
| Values.ReadInt32Bytes | src/common/common.h:130-135 | an int read from set_int's bytes is the stored value wrapped to 32 bits, the value itself when it fits |
| Values.ReadInt64Bytes | src/common/common.h:137-142 | a long long read from set_bigint's bytes is the value wrapped to 64 bits, itself when it fits |
| Values.ReadInt32Range | src/common/common.h:130-135 | an int read from 4 bytes is in int range |
| Values.UnsignedInjective | src/common/common.h:130-142 | byte strings of one length with the same value are equal |
| Values.ReadInt32Injective | src/common/common.h:130-135 | records reading the same int have the same 4 bytes |
| Values.Int32BytesInjective | src/common/common.h:130-135 | distinct ints are stored as distinct bytes |
| Values.IsValidDate | src/common/common.h:90-109 | isValidDate accepts exactly the calendar's days from 1900 on (month lengths and the leap-year rule) |
| Values.CheckDatetime | src/common/common.h:89-128 | check_datetime either accepts or fails with DateTimeFormatError |
| Values.RenderDatetime | src/common/common.h:118-124 | a rendered instant is 19 bytes long |
| Values.FieldsOfDigits | src/common/common.h:114 | sscanf's six numbers read from a DATETIME-shaped text are its digit groups |
| Values.DatetimeAccepted | src/common/common.h:89-128 | every valid instant, rendered, is accepted and reads back as itself |
| Values.RenderedFields | src/common/common.h:114 | a rendered instant's numbers read back as the instant |
| Values.RenderedShape | src/common/common.h:118-124 | a rendered instant matches "0000-00-00 00:00:00" once digits are masked |
| Values.ShapeBytes | src/common/common.h:118-124 | a matching text has '-', ' ', ':' at the separator positions and digits elsewhere |
| Values.DatetimeAcceptedOnlyRendered | src/common/common.h:89-128 | an accepted text is the rendering of a valid instant (the converse of DatetimeAccepted) |
| Values.Ascii | src/common/common.h:151-155 | a string's bytes are its chars' codes, one per char |
| Values.SpaceEnd | src/common/common.h:58 | strtoll skips exactly the leading white space |
| Values.DigitEnd | src/common/common.h:58 | strtoll reads exactly the longest run of digits |
| Values.Strtoll | src/common/common.h:58 | strtoll's result always fits in long long |
| Values.StrtollOfToString | src/common/common.h:58 | strtoll of a decimal numeral gives back its value, flagged out of range exactly when it does not fit |
| Values.DigitEndAll | src/common/common.h:58 | a numeral's digits run to its end |
| Values.IntFieldAsWritten | src/common/common.h:56-63 | as written: the INT value is strtoll's result truncated to 32 bits, with no error for a value beyond int |
| Values.IntFieldWraps | src/common/common.h:56-63 | as written, the field "3000000000" loads into an INT column as -1294967296 |
| Values.IntField | src/common/common.h:56-63 | corrected: the INT value is strtoll's result, and ResultOutOfRangeError exactly when that is beyond int or long long |
| Values.IntFieldRoundTrip | src/common/common.h:56-63 | an int written in decimal loads as itself; a long long beyond int is out of range |
| Values.BigintField | src/common/common.h:64-71 | the BIGINT value is strtoll's result; ResultOutOfRangeError exactly when strtoll overflows |
| Values.BigintFieldRoundTrip | src/common/common.h:64-71 | a long long written in decimal loads as itself |
| Values.Zeros | src/common/common.h:174-177 | n zero bytes (memset's padding) |
| Values.Value.SetInt | src/common/common.h:130-135 | an INT value whose 4 bytes read back as v |
| Values.Value.SetBigint | src/common/common.h:137-142 | a BIGINT value whose 8 bytes read back as v |
| Values.Value.SetStr | src/common/common.h:151-155 | a STRING value holding the string's bytes |
| Values.Value.SetData | src/common/common.h:54-83 | (corrected; the source wraps, see Findings) INT and BIGINT fields parse as IntField and BigintField (ResultOutOfRangeError otherwise); STRING and DATETIME fields are copied into a buffer of the column's length |
| Values.Value.ConvertToColType | src/common/common.h:157-183 | each branch of convert_value_to_col_type_and_fill: BIGINT to INT truncates, INT to BIGINT keeps the value, STRING to DATETIME is check_datetime, a STRING too long is StringOverflowError and a shorter one is zero-padded; other pairs are left alone; the result is Converted |
| Values.LexLessIrreflexive | src/common/common.h:29-31 | no string is less than itself |
| Values.LexLessTransitive | src/common/common.h:29-31 | the lexicographic order is transitive |
| Values.LexLessTotal | src/common/common.h:29-31 | any two strings are equal or ordered one way |
| Values.Codes | src/common/common.h:29-38 | a string compared as its chars' codes, one per char |
| Values.CodesInjective | src/common/common.h:34-38 | strings with the same codes are equal |
| Values.TabColOrder | src/common/common.h:29-38 | TabCol's operator< is a strict order whose incomparable pairs are exactly those operator== calls equal |
| Values.Converted | src/common/common.h:157-183 | a conversion reaches the column's type exactly when the pair is convertible; it fails only with StringOverflowError for STRING or DateTimeFormatError for DATETIME; a STRING result has the column's length; the result stays in range |
| Values.ConvertedIdempotent | src/common/common.h:157-183 | converting a converted value again changes nothing |
| Conditions.CompareBytesTrichotomy | src/execution/executor_seq_scan.h:56-75 | the string comparison is a total order: exactly one of <, = and >, with <=, >= and != following from them |
| Conditions.SwapOp | src/execution/executor_index_scan.h:56-58 | the swapped operator compares b with a as the original compares a with b; only = and != stay |
| Conditions.SwapOpInvolution | src/execution/executor_index_scan.h:56-58 | swapping twice gives back the operator |
| Conditions.CondHoldsOnField | src/execution/executor_seq_scan.h:85-131 | corrected: a condition depends only on its column's bytes |
| Conditions.AsWrittenReadsNextColumn | src/execution/executor_seq_scan.h:92-93 | as written, two records with the same INT column but different following bytes get different answers to one INT-versus-BIGINT condition |
| Conditions.CheckCond | src/execution/executor_seq_scan.h:77-138 | check_cond is true exactly when every condition holds; false names a condition that fails |
| Conditions.LhsCols | src/execution/executor_seq_scan.h:50-52 | one column meta per condition, named by its left-hand column; ColumnNotFoundError exactly when some condition names no column |
| SeqScan.SeqScanExecutor.constructor | src/execution/executor_seq_scan.h:37-53 | the table's columns, the record length as the last column's end, and one column meta per condition |
| SeqScan.FirstMatch | src/execution/executor_seq_scan.h:146-150 | the first record at or after from that satisfies every condition, or the end; none before it does |
| SeqScan.ScanStopsAreFilter | src/execution/executor_seq_scan.h:140-152 | the records the scan stops at, in order, are exactly the records the conditions select |
| SeqScan.SeqScanExecutor.Next | src/execution/executor_seq_scan.h:154-170 | the record at the scan's position, which satisfies every condition |
| SeqScan.SeqScanExecutor.SkipFailing | src/execution/executor_seq_scan.h:146 | the skip loop stops at FirstMatch |
| SeqScan.SeqScanExecutor.BeginTuple | src/execution/executor_seq_scan.h:140-147 | with the table's S lock held, the scan stands at the first record that satisfies the conditions; a refused lock is an abort and moves nothing |
| SeqScan.SeqScanExecutor.NextTuple | src/execution/executor_seq_scan.h:149-152 | the scan moves to the next record after the current one that satisfies the conditions |
| RecordScan.NextSet | src/record/rm_scan.cpp:32 | first_bit/next_bit: the first set bit from a slot on, or the page's slot count |
| RecordScan.FirstFrom | src/record/rm_scan.cpp:58-103 | the first occupied slot at or after a position, or the end |
| RecordScan.FirstFromIsLeast | src/record/rm_scan.cpp:58-103 | every occupied slot at or after the position is at or after what FirstFrom finds |
| RecordScan.NextIsSuccessor | src/record/rm_scan.cpp:58-103 | next reaches the following occupied slot, with none skipped |
| RecordScan.RmScan.constructor | src/record/rm_scan.cpp:17-53 | the scan starts at the first occupied slot from page 1 on |
| RecordScan.RmScan.Next | src/record/rm_scan.cpp:58-103 | the scan moves to the first occupied slot after the current one |
| RecordScan.RmScan.IsEnd | src/record/rm_scan.cpp:108-132 | the end exactly at the rid (-1, -1) |
| RecordScan.RmScan.CurrentRid | src/record/rm_scan.cpp:137-139 | a scan not at the end stands on an occupied slot |
| IndexScan.Flip | src/execution/executor_index_scan.h:60-67 | a condition whose left column is on another table has its columns swapped and its operator swapped so that it means the same; others stay |
| IndexScan.FlipTwice | src/execution/executor_index_scan.h:60-67 | flipping a condition back gives it back |
| IndexScan.FlipAll | src/execution/executor_index_scan.h:60-67 | the constructor's loop flips each condition in place |
| IndexScan.IndexScanExecutor.constructor | src/execution/executor_index_scan.h:42-73 | the table's columns and record length, the conditions flipped onto this table, one column meta per condition |
| IndexScan.MaxSeg | src/execution/executor_index_scan.h:154-172 | setMaxKey fills the column's len bytes |
| IndexScan.MinSeg | src/execution/executor_index_scan.h:174-192 | setMinKey fills the column's len bytes |
| IndexScan.SentinelsBound | src/execution/executor_index_scan.h:154-192 | no value of a key column lies below its min sentinel or above its max sentinel |
| IndexScan.SegOrder | src/execution/executor_index_scan.h:237 | the column comparison is a strict weak order |
| IndexScan.KeyCmp | src/execution/executor_index_scan.h:298-299 | the multi-column key comparison answers -1, 0 or 1 |
| IndexScan.KeyCmpAntisymmetric | src/execution/executor_index_scan.h:298-299 | swapping the keys negates the comparison |
| IndexScan.KeyCmpTransitive | src/execution/executor_index_scan.h:298-299 | the key comparison is transitive |
| IndexScan.KeyCmpBySegments | src/execution/executor_index_scan.h:298-299 | a key at most another column by column is at most it |
| IndexScan.RecKey | src/execution/executor_index_scan.h:298-299 | a record's index key is its index columns' bytes |
| IndexScan.LowerBoundHolds | src/execution/executor_index_scan.h:242-256 | a record satisfying a > or >= condition is not below the condition's value |
| IndexScan.UpperBoundHolds | src/execution/executor_index_scan.h:227-241 | a record satisfying a < or <= condition is not above the condition's value |
| IndexScan.RangeSound | src/execution/executor_index_scan.h:201-299 | every record satisfying the conditions has a key between min_key and max_key |
| IndexScan.ColumnBounds | src/execution/executor_index_scan.h:210-257 | the inner loop consumes exactly the run of conditions on the column; an = sets both bounds to its value, a < or > sets the bound some condition gives, an untouched bound is unchanged |
| IndexScan.FillSentinels | src/execution/executor_index_scan.h:261-291 | from the first column lacking a bound on, every column gets both sentinels; earlier columns keep theirs |
| IndexScan.BuildRange | src/execution/executor_index_scan.h:201-295 | every segment is a sentinel or a bound a condition gives, and a column no condition is on spans its whole range |
| IndexScan.LowerPos | src/execution/executor_index_scan.h:298 | lower_bound: the first entry not below min_key; every entry before it is below |
| IndexScan.UpperPos | src/execution/executor_index_scan.h:299 | upper_bound: the first entry above max_key; every entry before it is at most max_key |
| IndexScan.BetweenBounds | src/execution/executor_index_scan.h:298-304 | in key order, an entry between the bounds lies in the scanned window |
| IndexScan.MatchesInWindow | src/execution/executor_index_scan.h:298-309 | every entry satisfying all conditions lies in the scanned window (the scan is complete) |
| IndexScan.IndexScanExecutor.Next | src/execution/executor_index_scan.h:343-346 | the record at the scan's position, which satisfies every condition |
| IndexScan.IndexScanExecutor.SkipFailing | src/execution/executor_index_scan.h:304-309 | the skip stops at the first entry in the window satisfying the conditions, or at the window's end |
| IndexScan.IndexScanExecutor.BeginTuple | src/execution/executor_index_scan.h:193-321 | with the table's S lock held, the scan stands at the first matching entry of the window; a refused lock is an abort and moves nothing |
| IndexScan.IndexScanExecutor.StartScan | src/execution/executor_index_scan.h:201-309 | the window is built from the bounds and the scan stands at its first matching entry |
| IndexScan.IndexScanExecutor.NextTuple | src/execution/executor_index_scan.h:323-336 | the scan moves to the next matching entry of the window |
| SortExec.DirectedColumn | src/execution/execution_sort.h:38-98 | where the tuples differ on a sort column, nextComp is that column's ascending order, reversed for a descending column |
| SortExec.NextCompIrreflexive | src/execution/execution_sort.h:38-98 | no tuple comes before itself |
| SortExec.SameCompares | src/execution/execution_sort.h:38-98 | tuples equal on the sort columns compare alike with any third tuple |
| SortExec.NextCompTransitive | src/execution/execution_sort.h:38-98 | nextComp is transitive |
| SortExec.AscOrder | src/execution/execution_sort.h:45-85 | a column's ascending order is a strict weak order whose ties are equal column values |
| SortExec.NextCompTotal | src/execution/execution_sort.h:38-98 | two tuples are tied exactly when they agree on every sort column from idx on |
| SortExec.StrictWeakOrder | src/execution/execution_sort.h:30-35 | CompareObj is the strict weak order std::sort requires, with ties exactly the tuples equal on all sort columns |
| SortExec.Insert | src/execution/execution_sort.h:147 | insertion adds one tuple |
| SortExec.Sort | src/execution/execution_sort.h:147 | sorting keeps the number of tuples |
| SortExec.InsertPermutes | src/execution/execution_sort.h:147 | insertion adds exactly the tuple to the multiset |
| SortExec.SortPermutes | src/execution/execution_sort.h:147 | the sorted tuples are a permutation of the input |
| SortExec.InsertSorted | src/execution/execution_sort.h:147 | inserting into sorted tuples keeps them sorted |
| SortExec.SortSorted | src/execution/execution_sort.h:147 | the sorted tuples are in CompareObj order |
| SortExec.Matching | src/execution/execution_sort.h:128-132 | the child's columns with the selected column's table and name |
| SortExec.SortColsOf | src/execution/execution_sort.h:126-133 | sort_cols holds exactly the child's columns named by some selected column |
| SortExec.SortExecutor.constructor | src/execution/execution_sort.h:117-137 | the sort columns are SortColsOf; no tuples, isend set, index 0 |
| SortExec.SortExecutor.BeginTuple | src/execution/execution_sort.h:139-148 | the buffered tuples are the child's tuples, sorted and a permutation; isend is cleared exactly when there are tuples |
| SortExec.SortExecutor.NextTuple | src/execution/execution_sort.h:152-156 | the index moves on, and isend is set once it reaches tuple_num |
| SortExec.SortExecutor.Next | src/execution/execution_sort.h:158-161 | the tuple at the current index |
| SortExec.FindSortCols | src/execution/execution_sort.h:126-133 | the nested loop gives SortColsOf |
| SortExec.FindMatching | src/execution/execution_sort.h:128-132 | the inner loop gives Matching |
| ExecManager.Chars | src/execution/execution_manager.cpp:196-200 | the record's bytes read as chars, one per byte |
| ExecManager.CutAtNul | src/execution/execution_manager.cpp:197 | resize(strlen(...)): the longest prefix without a NUL byte |
| ExecManager.FieldOf | src/execution/execution_manager.cpp:188 | a column's bytes are col.len long |
| ExecManager.Padded | src/common/common.h:166-179 | a value copied into a column is exactly len bytes, its first len bytes when it is long enough |
| ExecManager.Place | src/execution/executor_update.h:94-96 | memcpy into a column: the column holds the padded value and every other byte stays |
| ExecManager.ConvertValue | src/common/common.h:157-183 | convert_value_to_col_type_and_fill on a literal gives Converted |
| ExecManager.CellText | src/execution/execution_manager.cpp:186-202 | a STRING or DATETIME cell is the column's bytes up to the first NUL |
| ExecManager.Cells | src/execution/execution_manager.cpp:185-203 | one cell per column |
| ExecManager.CellsTextCounts | src/execution/execution_manager.cpp:207-210 | the cells add one pipe character each and no newline |
| ExecManager.RowLineShape | src/execution/execution_manager.cpp:207-211 | a row line has one pipe character more than it has cells and ends with its only newline |
| ExecManager.AppendRow | src/execution/execution_manager.cpp:207-211 | the stream gains the row's line |
| ExecManager.CellsOf | src/execution/execution_manager.cpp:185-203 | the column loop gives Cells |
| ExecManager.PrintRecord | src/execution/execution_manager.cpp:184-212 | one turn of the select loop appends the tuple's row line |
| ExecManager.SelectFrom | src/execution/execution_manager.cpp:158-219 | the number of rows is the tuple count capped at the limit (all of them without a limit); the output file gains the caption line and one line per row when output is enabled |
| ExecManager.SeqMaxIsMax | src/execution/execution_manager.cpp:267-268 | the maximum is one of the values and none is larger |
| ExecManager.SeqMinIsMin | src/execution/execution_manager.cpp:269-274 | the minimum is one of the values and none is smaller |
| ExecManager.IntColumn | src/execution/execution_manager.cpp:260-262 | one int per tuple |
| ExecManager.IntAggregateMeaning | src/execution/execution_manager.cpp:261-275 | MAX starts from 0: not negative, at least every value, and 0 or one of them; MIN of a non-empty column is its least value; SUM is the 32-bit wrap-around of the sum |
| ExecManager.FoldInt | src/execution/execution_manager.cpp:257-335 | the aggregate loop over an INT column gives IntAggregate and the reported row count |
| ExecManager.LexMaxIsMax | src/execution/execution_manager.cpp:313-319 | the string maximum is one of the values and none is greater |
| ExecManager.LexMinIsMin | src/execution/execution_manager.cpp:320-326 | the string minimum is one of the values and none is less |
| ExecManager.TextColumn | src/execution/execution_manager.cpp:307 | one column-length string per tuple |
| ExecManager.FoldText | src/execution/execution_manager.cpp:306-335 | the aggregate loop over a STRING column gives TextAggregate and the reported count |
| ExecManager.TextAggregateMeaning | src/execution/execution_manager.cpp:306-330 | MAX and MIN over strings are the greatest and least value; SUM is an AggregateError, and only SUM |
| ExecManager.IntColumnOf | src/execution/execution_manager.cpp:257-262 | the loop collects IntColumn |
| ExecManager.TextColumnOf | src/execution/execution_manager.cpp:257-307 | the loop collects TextColumn |
| ExecManager.SelectWithAggregate | src/execution/execution_manager.cpp:222-365 | the one cell is AggCell of the column; an error writes nothing; otherwise the count is the reported one and the file gains the alias line and the value line |
| Catalog.Layout | src/system/sm_manager.cpp:184-196 | one column meta per column definition |
| Catalog.RowSizeStep | src/system/sm_manager.cpp:184-197 | the record size grows by each column's length |
| Catalog.RowSizeMono | src/system/sm_manager.cpp:184-197 | a longer prefix of columns never has a smaller size |
| Catalog.LayoutPacked | src/system/sm_manager.cpp:184-197 | columns are packed from offset 0, each right after the previous, all within record_size |
| Catalog.ColNames | src/system/sm_manager.cpp:280-286 | the names of the columns, in order |
| Catalog.TotLenIsKeyLen | src/system/sm_manager.cpp:238-246 | col_tot_len is the length of the index key built from those columns |
| Catalog.FindCol | src/system/sm_manager.cpp:244 | get_col: a column of that name, ColumnNotFoundError exactly when there is none |
| Catalog.FindIndex | src/system/sm_manager.cpp:270 | get_index_meta: the first index on exactly those columns, IndexNotFoundError exactly when there is none |
| Catalog.SmManager.CreateTable | src/system/sm_manager.cpp:180-206 | an existing table is TableExistsError; otherwise the table is laid out with no indexes and its record file made with record_size |
| Catalog.SmManager.DropTable | src/system/sm_manager.cpp:213-224 | a missing table is TableNotFoundError; otherwise its metadata and file go |
| Catalog.SmManager.CreateIndex | src/system/sm_manager.cpp:232-251 | a missing table is TableNotFoundError and an existing index IndexExistsError; it succeeds exactly when every named column exists, and then the index file exists and the table's index list gains the index over those columns |
| Catalog.SmManager.DropIndex | src/system/sm_manager.cpp:259-272 | a missing table or index is an error that changes nothing; otherwise the index file and handle go and the table loses that one index |
| Catalog.SmManager.ShowIndex | src/system/sm_manager.cpp:293-316 | with output disabled it succeeds for any table name and writes nothing; with output enabled it fails with TableNotFound exactly when the table is unknown, and otherwise the output file gains one line per index, holding the table, the unique flag and the columns between pipes |
| Catalog.SmManager.IndexLineOf | src/system/sm_manager.cpp:299-309 | the loop writes IndexLine for one index |
| Catalog.SmManager.DescTable | src/system/sm_manager.cpp:156-172 | a missing table is TableNotFoundError; otherwise one row (name, type, index YES/NO) per column |
| Catalog.IndexColumns | src/system/sm_manager.cpp:238-246 | the index columns and their total length exist exactly when every name is a column; ColumnNotFoundError otherwise |
| Catalog.IndexOver | src/system/sm_manager.cpp:235-249 | the index meta has the named columns, col_num and col_tot_len equal to the key length |
| Catalog.Without | src/system/sm_manager.cpp:270-271 | erase: the list without the element at k, in order |
| Catalog.CommasThenLast | src/system/sm_manager.cpp:303-307 | the names with commas before the last make the comma-joined list |
| IxNode.Node.Keys | src/index/ix_index_handle.cpp:21-39 | the node's num_key keys, in slot order |
| IxNode.Node.Rids | src/index/ix_index_handle.cpp:78-92 | the node's num_key rids, in slot order |
| IxNode.Node.constructor | src/index/ix_index_handle.cpp:450-462 | a fresh empty node page with no leaf neighbours |
| IxNode.Node.LowerBound | src/index/ix_index_handle.cpp:21-39 | the first slot whose key is not below the target: every key before it is smaller, every key from it on is at least the target |
| IxNode.Node.UpperBound | src/index/ix_index_handle.cpp:48-66 | 0 for an empty node, otherwise the first slot from 1 on whose key exceeds the target (slot 0 is never compared) |
| IxNode.Node.LeafLookup | src/index/ix_index_handle.cpp:78-92 | found exactly when the key is in the node, and then the rid is the one stored beside it |
| IxNode.Node.InternalLookup | src/index/ix_index_handle.cpp:99-107 | the child of slot j, where keys 1..j are at most the key and key j+1 exceeds it |
| IxNode.Node.InsertPairs | src/index/ix_index_handle.cpp:123-141 | a bad position or overflow changes nothing; otherwise the n pairs are spliced in at pos and the rest shifted up |
| IxNode.Node.Insert | src/index/ix_index_handle.cpp:151-165 | a duplicate key (or a full node) changes nothing; otherwise the pair is inserted so that the keys stay strictly increasing, and the new size is returned |
| IxNode.Node.ErasePair | src/index/ix_index_handle.cpp:172-183 | the pair at pos goes, the later pairs move down one slot (reading the slot one past num_key) |
| IxNode.Node.Remove | src/index/ix_index_handle.cpp:192-204 | the key is absent afterwards; if it was present exactly its pair goes, otherwise nothing changes |
| IxNode.ShiftUp | src/index/ix_index_handle.cpp:129-132 | the slots pos..num move up by n |
| IxNode.CopyIn | src/index/ix_index_handle.cpp:133-136 | the new pairs land in slots pos..pos+n |
| IxNode.InsertKeepsIncreasing | src/index/ix_index_handle.cpp:158-163 | inserting at the lower bound of an absent key keeps the keys strictly increasing |
| IxNode.EraseKeepsIncreasing | src/index/ix_index_handle.cpp:198-202 | erasing a slot keeps the keys strictly increasing and removes that key altogether |
| IxNode.Split | src/index/ix_index_handle.cpp:450-486 | the lower half stays, the upper half moves to the fresh right sibling in order, a leaf is linked between the node and its old next leaf, and for an inner node every moved child gets the new page as its parent (a leaf split leaves the children alone) |
| IxNode.MaintainChildren | src/index/ix_index_handle.cpp:479-483 | every child named by the new node's rids has the new node's page as its parent (maintain_child, lines 1215-1225) |
| IxNode.LinkLeaf | src/index/ix_index_handle.cpp:465-474 | the new leaf sits between the node and its old next leaf in both directions |
| IxNode.MoveUpperHalf | src/index/ix_index_handle.cpp:477-478 | the keys and rids from ceil-position on move to the right node; both stay sorted |
| IxNode.AdjustRoot | src/index/ix_index_handle.cpp:736-757 | the root is replaced exactly when it is an internal node with one child; then the child becomes the root with no parent, otherwise nothing changes |
| BufferPool.ZeroPage | src/storage/buffer_pool_manager.cpp:346-348 | a page of PAGE_SIZE zero bytes (reset_memory) |
| BufferPool.Without | src/storage/buffer_pool_manager.cpp:105 | replacer pin: the LRU list without that frame, nothing else dropped, still duplicate-free |
| BufferPool.WriteBack | src/storage/buffer_pool_manager.cpp:42-63 | a dirty frame's data is written to its page on disk, a clean one leaves the disk unchanged |
| BufferPool.Loaded | src/storage/buffer_pool_manager.cpp:130-133 | a frame holding the page just read, clean, pinned once, with the disk's bytes when the page exists |
| BufferPool.TookKeeps | src/storage/buffer_pool_manager.cpp:18-34 | taking a victim keeps the pool sound and the frame is then neither free nor evictable |
| BufferPool.PushFrontKeeps | src/storage/buffer_pool_manager.cpp:188-192 | replacer unpin of an unpinned frame keeps the pool sound |
| BufferPool.PushBackKeeps | src/storage/buffer_pool_manager.cpp:341-342 | putting an unmapped, unevictable frame on the free list keeps the pool sound |
| BufferPool.WithoutKeeps | src/storage/buffer_pool_manager.cpp:105 | replacer pin keeps the pool sound |
| BufferPool.FreeWhileEvictableBreaks | src/storage/buffer_pool_manager.cpp:341-342 | a frame still on the LRU list that is pushed on the free list breaks soundness (it could be handed out twice) |
| BufferPool.BufferPoolManager.constructor | src/storage/buffer_pool_manager.cpp:18-34 | every frame free, in order, no page mapped |
| BufferPool.BufferPoolManager.FindVictim | src/storage/buffer_pool_manager.cpp:18-34 | a frame is found exactly when the free list or the replacer has one; the free list is used first |
| BufferPool.BufferPoolManager.UpdatePage | src/storage/buffer_pool_manager.cpp:42-63 | the old page is written back if dirty and the frame is reset to the new page id, zeroed, unpinned |
| BufferPool.BufferPoolManager.FetchPage | src/storage/buffer_pool_manager.cpp:72-141 | a resident page is pinned once more and nothing else changes; a stale table entry is dropped and the fetch retried; a miss is BufferpoolFullError exactly when no frame is free or evictable, otherwise the victim is written back, remapped and loaded pinned |
| BufferPool.BufferPoolManager.FetchHit | src/storage/buffer_pool_manager.cpp:86-110 | the frame's pin count goes up by one and it leaves the LRU list |
| BufferPool.BufferPoolManager.FetchStale | src/storage/buffer_pool_manager.cpp:96-102 | the stale entry is erased, then the fetch behaves as a miss |
| BufferPool.BufferPoolManager.FetchMiss | src/storage/buffer_pool_manager.cpp:112-138 | BufferpoolFullError exactly when no frame is free or evictable; otherwise the victim frame is written back, remapped to the page and loaded |
| BufferPool.BufferPoolManager.ReadInto | src/storage/buffer_pool_manager.cpp:126-133 | the page table maps the page to the frame, the old page is written back and the frame is loaded from disk |
| BufferPool.BufferPoolManager.UnpinPage | src/storage/buffer_pool_manager.cpp:149-199 | succeeds exactly when the page is resident with a nonzero pin count; then the count drops by one, the dirty flag accumulates and a frame reaching zero joins the LRU list |
| BufferPool.BufferPoolManager.FlushPage | src/storage/buffer_pool_manager.cpp:206-249 | succeeds exactly when the page is resident; then the disk holds the frame's data and the frame is clean |
| BufferPool.BufferPoolManager.NewPage | src/storage/buffer_pool_manager.cpp:256-300 | none exactly when no frame is free or evictable; otherwise the next page number of the file is allocated and mapped to a zeroed frame pinned once |
| BufferPool.BufferPoolManager.DeletePage | src/storage/buffer_pool_manager.cpp:307-352 | false exactly when the page is resident and pinned; a resident unpinned page is unmapped, its frame reset and freed and removed from the LRU list |
| BufferPool.BufferPoolManager.DeletePageAsWritten | src/storage/buffer_pool_manager.cpp:339-342 | as written, a deleted frame that is still on the LRU list ends up both free and evictable |
| Locking.CompatibleSymmetric | src/transaction/concurrency/lock_manager.cpp:13-41 | the lock compatibility matrix is symmetric |
| Locking.CompatibleExtremes | src/transaction/concurrency/lock_manager.cpp:13-41 | X is compatible with no mode, IS with every mode but X |
| Locking.CoversConflictsMore | src/transaction/concurrency/lock_manager.cpp:13-93 | a mode that covers another is compatible with less: anything compatible with the stronger is compatible with the weaker |
| Locking.UpgradeDominates | src/transaction/concurrency/lock_manager.cpp:48-93 | isUpdateCompatible's upgraded mode covers both the held and the requested mode and differs from the held one |
| Locking.NoUpgradeCovers | src/transaction/concurrency/lock_manager.cpp:48-93 | when no upgrade is needed the held mode already covers the request |
| Locking.CheckQueueCompatible | src/transaction/concurrency/lock_manager.cpp:200-208 | true exactly when no granted request of another transaction conflicts with the mode |
| Locking.CheckQueueCompatibleOldest | src/transaction/concurrency/lock_manager.cpp:186-198 | the same verdict, and the oldest id becomes the least id among the conflicting transactions |
| Locking.OwnIndex | src/transaction/concurrency/lock_manager.cpp:96-97 | the index of the transaction's first request on the queue, or -1 when it has none |
| Locking.FindOwn | src/transaction/concurrency/lock_manager.cpp:96-97 | the first request of the transaction on the queue, or -1 when it has none: OwnIndex |
| Locking.FirstSuccess | src/transaction/concurrency/lock_manager.cpp:118-127 | the first attempt whose check succeeds, or MaxAttempt+1: every earlier attempt failed |
| Locking.WaitAsWritten | src/transaction/concurrency/lock_manager.cpp:118-130 | the loop stops at the first successful check and aborts exactly when that is attempt MaxAttempt |
| Locking.WaitAsWrittenGrantsAfterFailures | src/transaction/concurrency/lock_manager.cpp:118-130 | a request failing every check leaves the loop at MaxAttempt+1 and is not aborted |
| Locking.WaitAsWrittenAbortsOnLateSuccess | src/transaction/concurrency/lock_manager.cpp:118-130 | a request whose last allowed check succeeds is aborted |
| Locking.WaitGranted | src/transaction/concurrency/lock_manager.cpp:118-145 | the intended wait: granted exactly when some attempt's check succeeds |
| Locking.WaitAloneGrantedIffCompatible | src/transaction/concurrency/lock_manager.cpp:118-145 | with an unchanging queue the intended wait grants exactly when the request is compatible |
| Locking.WaitAlone | src/transaction/concurrency/lock_manager.cpp:253-265 | with an unchanging verdict the loop as written aborts exactly when the request is compatible and MaxAttempt is 0 |
| Locking.GrantAsWrittenBreaksCompatible | src/transaction/concurrency/lock_manager.cpp:277-279 | granting after the wait runs out next to a conflicting grant leaves two incompatible granted requests |
| Locking.GrantAsWrittenExample | src/transaction/concurrency/lock_manager.cpp:277-279 | one transaction holding X and another granted S is such a queue |
| Locking.RemoveTxn | src/transaction/concurrency/lock_manager.cpp:766-775 | the queue keeps exactly the requests of other transactions |
| Locking.RemoveTxnAppend | src/transaction/concurrency/lock_manager.cpp:766-775 | removal distributes over concatenation, so the order of the others is kept |
| Locking.RemoveKeepsCompatible | src/transaction/concurrency/lock_manager.cpp:766-775 | removing a transaction's requests keeps the granted ones pairwise compatible |
| Locking.GrantKeepsCompatible | src/transaction/concurrency/lock_manager.cpp:277-279 | granting a request that passed the queue check keeps the granted requests pairwise compatible |
| Locking.RaiseKeepsCompatible | src/transaction/concurrency/lock_manager.cpp:153-155 | raising the own request to the upgraded mode and making it wait keeps the other grants compatible |
| Locking.AppendKeepsCompatible | src/transaction/concurrency/lock_manager.cpp:251-252 | appending a waiting request keeps the granted ones compatible |
| Locking.WaitingOutcome | src/transaction/concurrency/lock_manager.cpp:105-138 | an own waiting request needing no upgrade, granted exactly when the queue is compatible with its mode, meets OwnOutcome, keeps the grants compatible and on success covers the mode |
| Locking.RaiseOutcome | src/transaction/concurrency/lock_manager.cpp:143-180 | an own request raised by an upgrade, granted exactly when the queue with it raised is compatible, meets OwnOutcome, keeps the grants compatible and on success covers the requested mode |
| Locking.AppendOutcome | src/transaction/concurrency/lock_manager.cpp:251-279 | an appended request granted exactly when the queue is compatible meets NewOutcome, keeps the grants compatible and on success holds the mode |
| Locking.RemoveTxnLoop | src/transaction/concurrency/lock_manager.cpp:766-775 | the erase loop leaves exactly RemoveTxn of the queue |
| Locking.OnlyOwn | src/transaction/concurrency/lock_manager.cpp:734-739 | true exactly when every request on the queue is the transaction's own |
| Locking.LockManager.constructor | src/transaction/concurrency/lock_manager.cpp:232-235 | an empty lock table |
| Locking.LockManager.Queue | src/transaction/concurrency/lock_manager.cpp:232-233 | lock_table_[id], an empty queue when absent, whose granted requests are compatible in a valid table |
| Locking.LockManager.BeginLocking | src/transaction/concurrency/lock_manager.cpp:219-224 | DEFAULT becomes GROWING, and the call may go on exactly when the state is then GROWING |
| Locking.LockManager.Lock | src/transaction/concurrency/lock_manager.cpp:217-281 | with the wait corrected: LOCK_ON_SHRINKING exactly when the transaction is past growing, changing nothing; otherwise, by whether the transaction already has a request on the queue, the result and the new queue for the id are those of OwnOutcome for its first request or of NewOutcome; on success the transaction holds a lock covering the mode; DEADLOCK_PREVENTION aborts it; only the queue for that id changes, the lock set gains the id at most once, and granted requests stay pairwise compatible |
| Locking.LockManager.LockOwn | src/transaction/concurrency/lock_manager.cpp:95-184 | with the wait corrected: an own granted request that covers the mode returns true and leaves the lock table as it was; an upgrade is UPGRADE_CONFLICT exactly when another is in progress; otherwise the request, kept or raised to the upgraded mode, is granted exactly when no other transaction holds a conflicting grant, and else the transaction aborts with DEADLOCK_PREVENTION and the request stays waiting (OwnOutcome) |
| Locking.LockManager.LockNew | src/transaction/concurrency/lock_manager.cpp:251-279 | with the wait corrected: the id enters the lock set and a request for the mode is appended to the queue, granted exactly when no other transaction holds a conflicting grant and left waiting with DEADLOCK_PREVENTION otherwise (NewOutcome) |
| Locking.LockManager.LockAsWritten | src/transaction/concurrency/lock_manager.cpp:217-281 | as written a new request is always granted when MaxAttempt > 0, whatever the queue holds; DEADLOCK_PREVENTION only when MaxAttempt is 0 |
| Locking.LockManager.LockOwnAsWritten | src/transaction/concurrency/lock_manager.cpp:95-184 | as written the own request is granted after the wait whatever the check says |
| Locking.LockManager.TryLockInGap | src/transaction/concurrency/lock_manager.cpp:717-743 | LOCK_ON_SHRINKING past growing; otherwise the gap queue is created if missing but not changed, and the call succeeds exactly when every request on it is the transaction's own |
| Locking.LockManager.Unlock | src/transaction/concurrency/lock_manager.cpp:751-780 | GROWING becomes SHRINKING, and exactly the transaction's requests leave the queue, the rest in order |
| TxnManager.RemoveTxnTwice | src/transaction/transaction_manager.cpp:18-23 | unlocking the same id twice (the lock set may repeat it) is unlocking it once |
| TxnManager.RemovedHasNone | src/transaction/transaction_manager.cpp:18-23 | an unlocked queue holds no request of the transaction |
| TxnManager.UnlockedAllQueues | src/transaction/transaction_manager.cpp:18-23 | after ReleaseLocks exactly the queues in the lock set have lost the transaction's requests; every other queue is as it was |
| TxnManager.TxnLog | src/transaction/transaction_manager.cpp:87-93 | a BEGIN, COMMIT or ABORT record of the transaction chained to its prev_lsn |
| TxnManager.Compensation | src/transaction/transaction_manager.cpp:121-211 | undoing an INSERT logs a DELETE, undoing a DELETE an INSERT of the saved image, undoing an UPDATE an UPDATE whose images are the saved one and the current one, all on the write's table and rid |
| TxnManager.Compensations | src/transaction/transaction_manager.cpp:119-215 | one compensating record per write |
| TxnManager.AbortRecords | src/transaction/transaction_manager.cpp:119-231 | the compensating records followed by the ABORT record, numbered after them |
| TxnManager.CompensationsChain | src/transaction/transaction_manager.cpp:119-215 | the compensating records are numbered in undo order, last write first, each chained to the one before |
| TxnManager.TransactionManager.constructor | src/transaction/transaction_manager.cpp:15 | no transactions yet, ids starting at 0 |
| TxnManager.TransactionManager.Begin | src/transaction/transaction_manager.cpp:31-55 | a fresh DEFAULT transaction numbered by the next id, which advances, entered in the transaction map; with logging a BEGIN record is appended and becomes its prev_lsn |
| TxnManager.TransactionManager.ReleaseLocks | src/transaction/transaction_manager.cpp:18-23 | the lock table is every lock-set queue unlocked, and GROWING becomes SHRINKING when there was a lock |
| TxnManager.TransactionManager.Commit | src/transaction/transaction_manager.cpp:62-103 | an ABORTED transaction is COMMIT_ABOOTED_TRANSACTION and nothing changes; otherwise locks are released, all sets emptied, a COMMIT record logged and forced (with logging), the state COMMITTED and the transaction leaves the map |
| TxnManager.TransactionManager.ReleaseAll | src/transaction/transaction_manager.cpp:75-85 | locks released and the lock, index-latch and deleted-page sets emptied |
| TxnManager.TransactionManager.LogEnd | src/transaction/transaction_manager.cpp:87-93 | the end record is appended with the next lsn, becomes prev_lsn and is persisted |
| TxnManager.TransactionManager.UndoLast | src/transaction/transaction_manager.cpp:120-213 | the last write is undone on the tables and popped; with logging its compensating record is appended and becomes prev_lsn |
| TxnManager.TransactionManager.Abort | src/transaction/transaction_manager.cpp:110-241 | the tables are the write set undone from last to first, every set is emptied, locks released, the compensating and ABORT records logged and forced with logging, the state ABORTED and the transaction leaves the map |
| TxnManager.TransactionManager.FinishAbort | src/transaction/transaction_manager.cpp:216-240 | locks released, sets emptied, ABORT logged and forced with logging, state ABORTED, out of the map |
| TxnManager.TransactionManager.UndoWrites | src/transaction/transaction_manager.cpp:118-216 | the write set is undone from its last record to its first and emptied, the compensating records appended in that order with logging |
| TxnManager.AbortRestoresTables | src/transaction/transaction_manager.cpp:110-215 | a transaction whose writes all passed their executors' checks leaves the tables as they were before its first write once it aborts |
| Logging.TotLenAppend | src/recovery/log_manager.cpp:33 | the buffer offset grows by each appended record's total length |
| Logging.TotLenZero | src/recovery/log_manager.cpp:41 | an offset of 0 means no buffered record |
| Logging.AppendKeepsIncrease | src/recovery/log_manager.cpp:31 | numbering each record with the next global lsn keeps the log's lsns increasing |
| Logging.LogManager.constructor | src/recovery/log_manager.cpp:22-35 | an empty log whose next lsn is given and whose persist lsn is the one before |
| Logging.LogManager.FlushLogToDisk | src/recovery/log_manager.cpp:40-45 | an empty flush buffer writes nothing; otherwise its records are appended to the log file and its offset reset |
| Logging.LogManager.FlushRound | src/recovery/log_manager.cpp:47-71 | with records buffered, they all reach the log file and persist_lsn_ becomes global_lsn_ - 1; with none nothing changes; nothing is lost or reordered |
| Logging.LogManager.AddLogToBuffer | src/recovery/log_manager.cpp:22-35 | the record gets the next lsn and follows every earlier record; a record that does not fit has the buffered records flushed first |
| Logging.LogManager.Append | src/recovery/log_manager.cpp:31-34 | the record, numbered global_lsn_, is placed at the end of a buffer with room for it |
| Logging.LogManager.ForceFlush | src/recovery/log_manager.cpp:73-80 | afterwards persist_lsn_ reaches lsn and every record still buffered is newer; a persisted lsn changes nothing |
| Logging.LogManager.SetLsns | src/recovery/log_recovery.cpp:76-77 | persist_lsn_ is the largest lsn and global_lsn_ the one after it |
| Recovery.RedoData | src/recovery/log_recovery.cpp:95-157 | a record its page has seen (page_lsn at least its lsn) changes nothing; otherwise it is reapplied and the page_lsn set to its lsn |
| Recovery.RedoDataRaises | src/recovery/log_recovery.cpp:103-109 | redo never lowers a page_lsn and leaves the record's page at least at its lsn |
| Recovery.RedoDataIdempotent | src/recovery/log_recovery.cpp:103-106 | redoing a record twice is redoing it once |
| Recovery.RedoAllRaises | src/recovery/log_recovery.cpp:27-75 | redo over a run of records never lowers a page_lsn and opens no file |
| Recovery.RedoAllCovers | src/recovery/log_recovery.cpp:27-75 | after redo every record of the run is covered by its page's lsn |
| Recovery.RedoAllCoveredIsNoop | src/recovery/log_recovery.cpp:103-106 | redo over records that are all covered changes nothing |
| Recovery.RedoAllIdempotent | src/recovery/log_recovery.cpp:23-78 | redoing the log a second time changes nothing |
| Recovery.LastOf | src/recovery/log_recovery.cpp:82 | the index of the transaction's last record, no later record of it |
| Recovery.ActiveAfterExact | src/recovery/log_recovery.cpp:80-94 | after redo exactly the transactions whose last record is not a commit or abort are active, each with that record's lsn |
| Recovery.MaxLsn | src/recovery/log_recovery.cpp:25-66 | the largest lsn read, INVALID_LSN when there is none |
| Recovery.MappingAfterExact | src/recovery/log_recovery.cpp:68 | with distinct lsns every record's lsn maps to its file offset and size |
| Recovery.TotLenPrefix | src/recovery/log_recovery.cpp:72-74 | offsets of records only grow through the file |
| Recovery.UndoData | src/recovery/log_recovery.cpp:220-286 | undo of a data record of an open table inverts it; anything else changes nothing |
| Recovery.UndoInvertsRedo | src/recovery/log_recovery.cpp:225-282 | undoing a record that redo applied restores its table |
| Recovery.Compensation | src/recovery/log_recovery.cpp:233-271 | the compensation record of a data record belongs to the same transaction, table and rid and points back at the transaction's last lsn |
| Recovery.CompensationRedoesUndo | src/recovery/log_recovery.cpp:233-273 | redoing a compensation record changes the table as undoing the original did |
| Recovery.TrailLinks | src/recovery/log_recovery.cpp:220-286 | the compensation records of an undo trail get consecutive lsns in order, each points back at its transaction's last lsn after the ones before it, and the last lsns at the end are those the compensations leave |
| Recovery.LastMapNone | src/recovery/log_recovery.cpp:233-277 | a transaction with no compensation record keeps its last lsn |
| Recovery.LastMapLast | src/recovery/log_recovery.cpp:233-277 | a transaction ends with the lsn of its last compensation record as its last lsn |
| Recovery.UndoStateStep | src/recovery/log_recovery.cpp:172-212 | one round of undo keeps the loop state: the store gains the record's undo, the log and last lsns the record's trail step, and the worklist's largest lsn drops |
| Recovery.RecordAtPrefix | src/recovery/log_recovery.cpp:33-72 | the record at the offset where the first i records end is record i |
| Recovery.RecordAtExtend | src/recovery/log_recovery.cpp:175-176 | records appended to the log file do not move those already in it |
| Recovery.RedoMapsSoundly | src/recovery/log_recovery.cpp:68 | the lsn mapping built by redo leads each lsn to its own record |
| Recovery.Records | src/recovery/log_recovery.cpp:175-205 | the record read at each mapped offset, by lsn |
| Recovery.Chain | src/recovery/log_recovery.cpp:209-212 | the prev_lsn chain from an lsn holds only known lsns no larger than it |
| Recovery.SetInsert | src/recovery/log_recovery.cpp:169-211 | std::set insert: still sorted, with exactly the old elements and the new one |
| Recovery.ChainsTake | src/recovery/log_recovery.cpp:172-212 | taking the largest lsn off and its prev_lsn on keeps the chains to undo, minus that lsn, which is not undone again |
| Recovery.NextWorkBelow | src/recovery/log_recovery.cpp:209-212 | every lsn left on the worklist after a round is known and below the one undone |
| Recovery.WorkStep | src/recovery/log_recovery.cpp:172-212 | one round keeps the undo invariant and lowers the worklist's largest lsn |
| Recovery.NextWorkSeq | src/recovery/log_recovery.cpp:209-212 | the sorted worklist with its largest lsn erased and the prev_lsn inserted unless INVALID_LSN |
| Recovery.RoundFacts | src/recovery/log_recovery.cpp:172-212 | one round on the sorted worklist keeps the invariant and strictly lowers its largest lsn |
| Recovery.Seed | src/recovery/log_recovery.cpp:167-170 | the worklist holds exactly the last lsn of each active transaction, sorted |
| Recovery.RecoveryManager.constructor | src/recovery/log_recovery.cpp:16-18 | no active transactions and an empty lsn mapping |
| Recovery.RecoveryManager.RedoLog | src/recovery/log_recovery.cpp:80-161 | the transaction's last lsn becomes the record's, commit and abort end it, and the data goes through the page_lsn guard |
| Recovery.RecoveryManager.TakeRecord | src/recovery/log_recovery.cpp:64-72 | the record is mapped to its offset and size and redone |
| Recovery.RecoveryManager.RedoChunk | src/recovery/log_recovery.cpp:28-74 | the records of one chunk are taken in order while they fit; the state is the fold of redo over the records taken |
| Recovery.RecoveryManager.RedoWalk | src/recovery/log_recovery.cpp:27-75 | the active transactions, lsn mapping, tables and largest lsn are the folds of redo over the whole log file |
| Recovery.RecoveryManager.Redo | src/recovery/log_recovery.cpp:23-78 | redo over the whole log; then persist_lsn_ is the largest lsn and global_lsn_ the one after |
| Recovery.RecoveryManager.UndoLog | src/recovery/log_recovery.cpp:220-286 | a data record of an open table is undone, its compensation record (pointing back at the transaction's last lsn) appended with the next lsn, which then becomes the transaction's last lsn; anything else changes nothing |
| Recovery.RecoveryManager.UndoAt | src/recovery/log_recovery.cpp:175-207 | the record read at the mapped offset is the lsn's own and is undone; the log gains exactly that record's step of the undo trail and the last lsns are the step's |
| Recovery.RecoveryManager.UndoRound | src/recovery/log_recovery.cpp:172-212 | the largest lsn is undone, the worklist invariant kept (including that the log is the starting log plus the undo trail of the lsns undone so far and the last lsns are the trail's) and the worklist's largest lsn lowered |
| Recovery.RecoveryManager.UndoChains | src/recovery/log_recovery.cpp:172-213 | exactly the lsns of the active transactions' prev_lsn chains are undone, each once, in strictly decreasing order; the log gains exactly the compensation records of the undo trail of those lsns, in that order, and active_txn_ ends as the trail leaves it |
| Recovery.RecoveryManager.AppendAborts | src/recovery/log_recovery.cpp:214-217 | one ABORT record per active transaction appended, pointing at its last lsn |
| Recovery.RecoveryManager.UndoSeeded | src/recovery/log_recovery.cpp:166-213 | the worklist seeded with every active transaction's last lsn, the chains are undone as UndoChains says |
| Recovery.RecoveryManager.Undo | src/recovery/log_recovery.cpp:166-218 | every record of every unfinished transaction is undone exactly once, newest first; the log becomes the old log, then the compensation records of the undo trail, then one ABORT record per active transaction pointing back at its final last lsn; active_txn_ ends as the trail leaves it |
| NestedLoopJoin.FullBlock | src/execution/executor_nestedloop_join.h:68 | the flush test after an insert holds exactly when the buffer holds records_per_block records |
| NestedLoopJoin.JoinBlock.constructor | src/execution/executor_nestedloop_join.h:36-58 | an empty block of PAGE_SIZE bytes over an empty file |
| NestedLoopJoin.JoinBlock.InsertTup | src/execution/executor_nestedloop_join.h:60-78 | the record follows every earlier one (file then buffer) and is counted; a buffer that becomes full is written to the file and emptied |
| NestedLoopJoin.JoinBlock.ResetToBlockHead | src/execution/executor_nestedloop_join.h:80-83 | the next read is the buffer's first record |
| NestedLoopJoin.JoinBlock.ResetToFileHead | src/execution/executor_nestedloop_join.h:85-90 | the file's first block, of at most records_per_block records, is in the buffer and read from its head |
| NestedLoopJoin.JoinBlock.StartRead | src/execution/executor_nestedloop_join.h:92-96 | the buffered records are written after the full blocks, so the file holds every inserted record in order, then it is read from its head |
| NestedLoopJoin.JoinBlock.ReadNextBlock | src/execution/executor_nestedloop_join.h:108-113 | the next at most records_per_block records from the read position; 0 exactly at the end of the file |
| NestedLoopJoin.JoinBlock.ReadTup | src/execution/executor_nestedloop_join.h:98-106 | the buffer's next record (the file's record at block start plus position), or none once tup_in_block records were read |
| NestedLoopJoin.OpenBlock | src/execution/executor_nestedloop_join.h:52-56 | a failed fopen aborts the transaction with NESTLOOPJOIN_FILE_FAILURE; otherwise an empty block |
| NestedLoopJoin.Load | src/execution/executor_nestedloop_join.h:233-234 | the child's tuples are inserted into its block, in order, each counted once |
| NestedLoopJoin.LoadForReading | src/execution/executor_nestedloop_join.h:233-240 | the child's tuples written to the block's file, which is then read from its first block |
| NestedLoopJoin.Lookup | src/execution/executor_nestedloop_join.h:134-177 | the first column with that table and name, none exactly when no column has them |
| NestedLoopJoin.InsertAllKeeps | src/execution/executor_nestedloop_join.h:163-178 | std::map insert never overwrites: a key keeps its first column |
| NestedLoopJoin.LookupAppend | src/execution/executor_nestedloop_join.h:163-178 | looking up in left then right columns finds the left column first |
| NestedLoopJoin.ColMapFirstWins | src/execution/executor_nestedloop_join.h:162-178 | col_offset_map knows exactly the two sides' columns, each key mapped to its first column, left before right |
| NestedLoopJoin.InsertCols | src/execution/executor_nestedloop_join.h:163-169 | the insert loop builds the map of the first columns |
| NestedLoopJoin.Shifted | src/execution/executor_nestedloop_join.h:181-183 | a column moved by the shift, nothing else changed |
| NestedLoopJoin.ShiftCols | src/execution/executor_nestedloop_join.h:181-183 | every right column moved past the left tuple, in order |
| NestedLoopJoin.ShiftOffsets | src/execution/executor_nestedloop_join.h:181-183 | the loop moves each right column by the left tuple's length |
| NestedLoopJoin.JoinedLeftField | src/execution/executor_nestedloop_join.h:158-185 | a left column of the output layout reads its bytes from the left tuple |
| NestedLoopJoin.JoinedRightField | src/execution/executor_nestedloop_join.h:158-185 | a right column of the output layout reads the right column's bytes from the right tuple |
| NestedLoopJoin.JoinConds | src/execution/executor_nestedloop_join.h:244-257 | exactly the column-to-column conditions whose two columns the join knows, in order |
| NestedLoopJoin.FilterConds | src/execution/executor_nestedloop_join.h:244-257 | the filtering loop keeps exactly JoinConds |
| NestedLoopJoin.JoinCheckCond | src/execution/executor_nestedloop_join.h:340-388 | true exactly when every kept condition holds of the pair (compared by type: INT, BIGINT, CHAR bytes), true with no conditions |
| NestedLoopJoin.PairsEvaluateKept | src/execution/executor_nestedloop_join.h:244-257 | the kept conditions can be evaluated on every pair whenever all could |
| NestedLoopJoin.MatchesAt | src/execution/executor_nestedloop_join.h:340-388 | whether a pair matches is check_cond on its two tuples |
| NestedLoopJoin.Hits | src/execution/executor_nestedloop_join.h:340-388 | the pairs of a left and a right tuple that check_cond accepts |
| NestedLoopJoin.Scan | src/execution/executor_nestedloop_join.h:262-315 | the first hit among the pairs in order and what follows it |
| NestedLoopJoin.ScanIsFirst | src/execution/executor_nestedloop_join.h:262-315 | Miss exactly when no pair is a hit; otherwise the found pair is a hit and no earlier pair is |
| NestedLoopJoin.ScanConcat | src/execution/executor_nestedloop_join.h:262-315 | probing a run of pairs after another: the hit in the first run, else the probe of the second |
| NestedLoopJoin.RowsHas | src/execution/executor_nestedloop_join.h:267-288 | a run of left tuples against a range of right tuples holds exactly those pairs |
| NestedLoopJoin.LeftBlocksHas | src/execution/executor_nestedloop_join.h:262-315 | the block order from left block a on holds every pair of a left tuple from a with a right tuple |
| NestedLoopJoin.BlockFrom | src/execution/executor_nestedloop_join.h:267-312 | a left block against a right block is its first tuple's row, then its other tuples' rows, then the next right blocks |
| NestedLoopJoin.FirstInOrder | src/execution/executor_nestedloop_join.h:262-315 | the block-order probe misses exactly when no pair of a left and a right tuple is a hit |
| NestedLoopJoin.NoHitIffNoMatch | src/execution/executor_nestedloop_join.h:262-315 | the block-order probe over all pairs finds nothing exactly when no pair of tuples satisfies the join conditions |
| NestedLoopJoin.RowScanStep | src/execution/executor_nestedloop_join.h:270-285 | checking a row: its first pair is a hit, or the rest of the row is checked |
| NestedLoopJoin.PassDone | src/execution/executor_nestedloop_join.h:267-288 | after left_tup's pass over the right block, a hit comes with everything after it and no hit leaves what follows the pass |
| NestedLoopJoin.InitPending | src/execution/executor_nestedloop_join.h:224-259 | after init_join every pair of the two files is pending, in block order |
| NestedLoopJoin.LeftStep | src/execution/executor_nestedloop_join.h:286-287 | the next left tuple against the right block from its head keeps the pending pairs |
| NestedLoopJoin.NextRightBlock | src/execution/executor_nestedloop_join.h:294-312 | the right file's next block against the left block from its head keeps the pending pairs |
| NestedLoopJoin.NextLeftBlock | src/execution/executor_nestedloop_join.h:295-306 | the left file's next block against the right file from its head keeps the pending pairs |
| NestedLoopJoin.NothingPending | src/execution/executor_nestedloop_join.h:297-301 | once both files are read through nothing is pending |
| NestedLoopJoin.NestedLoopJoinExecutor.constructor | src/execution/executor_nestedloop_join.h:144-188 | len_ is the sum of the tuple lengths, cols_ the left columns then the right ones moved past the left tuple, col_offset_map the first columns, isend false |
| NestedLoopJoin.NestedLoopJoinExecutor.InitJoin | src/execution/executor_nestedloop_join.h:224-259 | both children loaded and read from their heads, left_tup the first left tuple, the conditions filtered, and every pair pending in block order |
| NestedLoopJoin.NestedLoopJoinExecutor.KeepJoinConds | src/execution/executor_nestedloop_join.h:244-257 | the kept conditions are JoinConds and every one names two known columns |
| NestedLoopJoin.NestedLoopJoinExecutor.ScanRight | src/execution/executor_nestedloop_join.h:269-285 | the left tuple against the rest of the right block stops at the first hit, matched_data then holding the pair |
| NestedLoopJoin.NestedLoopJoinExecutor.TryPair | src/execution/executor_nestedloop_join.h:272-282 | a hit exactly when check_cond accepts the current pair; then matched_data is its bytes |
| NestedLoopJoin.NestedLoopJoinExecutor.ScanBlocks | src/execution/executor_nestedloop_join.h:267-288 | the while(left_tup) loop finds the first pending hit of the left block against the right block, or exhausts them |
| NestedLoopJoin.NestedLoopJoinExecutor.LeftPass | src/execution/executor_nestedloop_join.h:268-287 | one turn of the loop: a hit in left_tup's pass, or the next left tuple |
| NestedLoopJoin.NestedLoopJoinExecutor.NextLeftTuple | src/execution/executor_nestedloop_join.h:286-287 | the pairs after left_tup's pass remain pending |
| NestedLoopJoin.NestedLoopJoinExecutor.AdvanceBlocks | src/execution/executor_nestedloop_join.h:294-312 | another block pair exactly unless both files are read through, then isend; the pending pairs are kept and the read positions advance |
| NestedLoopJoin.NestedLoopJoinExecutor.RewindLeft | src/execution/executor_nestedloop_join.h:308-312 | the left block from its head against the new right block keeps the pending pairs |
| NestedLoopJoin.NestedLoopJoinExecutor.NextLeftBlockOrEnd | src/execution/executor_nestedloop_join.h:295-306 | the left file's next block, or isend exactly at its end when nothing is pending |
| NestedLoopJoin.NestedLoopJoinExecutor.StartLeftBlock | src/execution/executor_nestedloop_join.h:304-306 | a fresh left block's first tuple against the right file's first block keeps the pending pairs |
| NestedLoopJoin.NestedLoopJoinExecutor.ContinueBlockJoin | src/execution/executor_nestedloop_join.h:262-315 | the next pending pair that matches, in block order, becomes matched_data, or isend when there is none |
| NestedLoopJoin.NestedLoopJoinExecutor.BeginTuple | src/execution/executor_nestedloop_join.h:192-201 | the first matching pair in block order; isend at once exactly when no pair of the children's tuples matches |
| NestedLoopJoin.NestedLoopJoinExecutor.NextTuple | src/execution/executor_nestedloop_join.h:203-205 | the next matching pair in block order; once at the end it stays there |
| NestedLoopJoin.NestedLoopJoinExecutor.Next | src/execution/executor_nestedloop_join.h:207-211 | a record of len_ bytes holding matched_data |
| NestedLoopJoin.Create | src/execution/executor_nestedloop_join.h:153-154 | succeeds exactly when both temporary files open; otherwise the transaction is aborted with NESTLOOPJOIN_FILE_FAILURE |
| HashJoin.MasksSelectBytes | src/execution/executor_hash_join.h:31-32 | on a little-endian INT, the partition mask keeps byte 0 and the bucket mask, shifted, keeps the low two bits of byte 1 |
| HashJoin.PartitionCode | src/execution/executor_hash_join.h:25-40 | Partition::get_hash_code: a partition number below PARTITION_NUM |
| HashJoin.BucketCode | src/execution/executor_hash_join.h:271-285 | PartitionHashJoin::get_hash_code: a bucket number below 4 |
| HashJoin.EqualJoinValues | src/execution/executor_hash_join.h:25-40 | tuples an INT equality holds for have one partition and one bucket, so partitioning and bucketing lose no match |
| HashJoin.UpRoundPower2 | src/execution/executor_hash_join.h:287-305 | a power of two, at least n up to 2^31 and below 2n up to 2^30 |
| HashJoin.BucketNumAsWrittenTooSmall | src/execution/executor_hash_join.h:328-333 | as written (^ is XOR) one left tuple gets 0 buckets and eight get 2, while bucket codes reach 3 |
| HashJoin.BucketNum | src/execution/executor_hash_join.h:328-333 | the intended bucket count: a power of two of at least 4, with room for every code and about four left tuples a bucket |
| HashJoin.BucketCodes | src/execution/executor_hash_join.h:341-347 | the bucket code of each left tuple |
| HashJoin.WithCodeComplete | src/execution/executor_hash_join.h:341-347 | every tuple of code c is on its chain |
| HashJoin.WithCodeDescending | src/execution/executor_hash_join.h:341-347 | a chain is walked from the last tuple to the first |
| HashJoin.NextLinksDown | src/execution/executor_hash_join.h:344 | every link next[i] points below i+1, so chain walks end |
| HashJoin.ChainIsWithCode | src/execution/executor_hash_join.h:341-380 | following a chain from a bucket visits exactly the tuples of its code, last first, ending at 0 |
| HashJoin.ChainPairsComplete | src/execution/executor_hash_join.h:389-403 | a right tuple's whole chain pairs it with exactly the left tuples of its bucket code |
| HashJoin.LaterComplete | src/execution/executor_hash_join.h:384-405 | the probe from right tuple from on checks exactly the pairs whose tuples share a bucket code |
| HashJoin.InsertStep | src/execution/executor_hash_join.h:343-345 | one step of build_hash_table: the tuple links to its bucket's previous head and becomes the head |
| HashJoin.WalkStep | src/execution/executor_hash_join.h:368-380 | one step down a chain: the pair with the current target is checked, then the chain goes on at its link |
| HashJoin.WalkChain | src/execution/executor_hash_join.h:368-380 | the while(target) loop finds the first matching pair on the chain, with the rest of the chain after it |
| HashJoin.Zeros | src/execution/executor_hash_join.h:333 | calloc: an array of n zeros |
| HashJoin.ChainsBuilt | src/execution/executor_hash_join.h:341-350 | once every left tuple is in, each bucket's chain is exactly the tuples of its code |
| HashJoin.BuildChains | src/execution/executor_hash_join.h:333-350 | the built table's buckets are the chain heads and the links go down |
| HashJoin.PendingStep | src/execution/executor_hash_join.h:368-405 | what is left to probe: the hit of the current chain, or the later right tuples |
| HashJoin.ProbeLater | src/execution/executor_hash_join.h:383-407 | the for loop finds the first matching pair among the later right tuples' chains, in order, or none |
| HashJoin.Probe | src/execution/executor_hash_join.h:357-408 | continue_probe: the rest of the current chain, then the later right tuples, up to the first matching pair, which check_cond accepts |
| HashJoin.BuildTable | src/execution/executor_hash_join.h:325-355 | the codes, the table and a first probe position from which the whole probe order is pending |
| HashJoin.FirstTargetAsWritten | src/execution/executor_hash_join.h:340-354 | as written the first target is read from the bytes past the left partition |
| HashJoin.FirstTargetAsWrittenSkipsPair | src/execution/executor_hash_join.h:353-354 | one left and one right tuple holding 256, with zero bytes past the left partition: the first target is 0 and the matching pair is never probed |
| HashJoin.ProbedRightAsWritten | src/execution/executor_hash_join.h:383-405 | as written the for loop reads right tuples from context.i + 1 on |
| HashJoin.ProbedRightAsWrittenOverruns | src/execution/executor_hash_join.h:383-405 | its last step reads right tuple right_num, one past the partition |
| HashJoin.PartitionHashJoin.constructor | src/execution/executor_hash_join.h:308-323 | no table, the probe at the first right tuple, no match |
| HashJoin.PartitionHashJoin.UpdateNextPartition | src/execution/executor_hash_join.h:416-435 | the new partitions, the table freed and the context reset |
| HashJoin.PartitionHashJoin.BuildHashTable | src/execution/executor_hash_join.h:325-355 | the table is built and every pair sharing a bucket code is pending in probe order |
| HashJoin.PartitionHashJoin.ContinueProbe | src/execution/executor_hash_join.h:357-408 | the first pending matching pair in probe order, the probe then resuming after it; none when the partition is probed through |
| HashPartition.OfCode | src/execution/executor_hash_join.h:92-109 | the tuples of a partition code, in the order put |
| HashPartition.OfCodeAppend | src/execution/executor_hash_join.h:92-109 | a tuple put joins the end of its own partition and no other |
| HashPartition.OfCodeExactly | src/execution/executor_hash_join.h:92-109 | a partition holds exactly the tuples of its code |
| HashPartition.SpilledIffOver | src/execution/executor_hash_join.h:111-157 | a partition spilled exactly when its total exceeds a page's worth, the test get_partition uses |
| HashPartition.PageFull | src/execution/executor_hash_join.h:96-99 | put_tup's test holds exactly when the page holds page_size / record_len tuples |
| HashPartition.PutKeeps | src/execution/executor_hash_join.h:92-109 | put_tup keeps the spill file, page and counts in step with the tuples put |
| HashPartition.Partition.constructor | src/execution/executor_hash_join.h:58-69 | every partition empty, nothing spilled |
| HashPartition.Partition.FlushToFile | src/execution/executor_hash_join.h:42-54 | the partition's page appended to its spill file and emptied |
| HashPartition.Partition.PutTup | src/execution/executor_hash_join.h:92-109 | the tuple counted, the full page flushed first, then the tuple copied onto the page |
| HashPartition.Partition.GetPartition | src/execution/executor_hash_join.h:111-158 | (corrected; the source's spill read fails, see Findings) the tuples of that partition in the order put, and their count, from the spill file then the page when it spilled |
| HashPartition.SpillReadAsWritten | src/execution/executor_hash_join.h:142-149 | as written: the read succeeds exactly when the file holds tup_total_count records, and then the page's tuples follow them |
| HashPartition.SpilledReadAsWrittenFails | src/execution/executor_hash_join.h:124-145 | every partition that spilled fails the as-written read, because its file holds fewer than tup_total_count tuples |
| HashPartition.PartitionAll | src/execution/executor_hash_join.h:561-565 | every child tuple put, in order |
| HashJoinExec.FirstEq | src/execution/executor_hash_join.h:542-553 | the first equality condition, no earlier one, or the end |
| HashJoinExec.FindJoinKey | src/execution/executor_hash_join.h:542-553 | the constructor's loop stops at FirstEq |
| HashJoinExec.FirstShared | src/execution/executor_hash_join.h:570-583 | the first partition from from on holding tuples on both sides, PARTITION_NUM when none |
| HashJoinExec.EmptyLeftLeavesJoinUnset | src/execution/executor_hash_join.h:570-584 | a join whose left child yields nothing has no shared partition, so beginTuple leaves join unset before build_hash_table |
| HashJoinExec.FindShared | src/execution/executor_hash_join.h:471-482 | the search loop reads each pair of partitions and stops at FirstShared |
| HashJoinExec.MatchedWithin | src/execution/executor_hash_join.h:488-492 | a joined pair is a left child's tuple followed by a right child's |
| HashJoinExec.PartitionsJoinable | src/execution/executor_hash_join.h:570-584 | each pair of partitions is an input PartitionHashJoin can join |
| HashJoinExec.HashJoinExecutor.constructor | src/execution/executor_hash_join.h:497-554 | layout and col_offset_map as for the nested-loop join, the join conditions kept, and the Partitions created on the first equality's columns exactly when there is one |
| HashJoinExec.HashJoinExecutor.ContinueJoin | src/execution/executor_hash_join.h:463-494 | the next match of the current pair of partitions, or of the next shared pair; none when nothing is left |
| HashJoinExec.HashJoinExecutor.LoadNext | src/execution/executor_hash_join.h:467-485 | the next shared pair loaded, or none and no shared pair is left |
| HashJoinExec.HashJoinExecutor.LoadPair | src/execution/executor_hash_join.h:476-479 | the join on pair i with its table built and partition_idx past i |
| HashJoinExec.HashJoinExecutor.BeginTuple | src/execution/executor_hash_join.h:556-589 | both children partitioned, the first shared pair joined and the first match sought; with no shared pair the join is left unset |
| HashJoinExec.HashJoinExecutor.PartitionInputs | src/execution/executor_hash_join.h:561-565 | each child's tuples are put in its Partition |
| HashJoinExec.HashJoinExecutor.StartJoin | src/execution/executor_hash_join.h:570-584 | the join is created on the first shared pair with its table built, or none exists |
| HashJoinExec.HashJoinExecutor.NextTuple | src/execution/executor_hash_join.h:591-595 | the next match, or the end with nothing left to join |
| HashJoinExec.HashJoinExecutor.Next | src/execution/executor_hash_join.h:597-601 | a record of len_ bytes, a left child's tuple followed by a right child's |
| PyStr.Find | RDSTester/mysql/sql.py:66-86 | str.find: the first index from start holding the character, -1 exactly when there is none |
| PyStr.Strip | RDSTester/mysql/sql.py:80 | str.strip: a piece of the text that neither starts nor ends with white space |
| PyStr.StripPadded | RDSTester/mysql/sql.py:80 | stripping a stripped text padded with one space each side gives it back |
| PyStr.NatToString | RDSTester/mysql/sql.py:103 | str(n): decimal digits without a leading zero |
| PyStr.IntToStringRoundTrip | RDSTester/mysql/driver.py:77 | eval(str(n)) == n for every integer |
| SqlClient.ColumnList | RDSTester/mysql/sql.py:32-43 | a TypeError exactly for a tuple of columns, the one-name list otherwise |
| SqlClient.SelectSql | RDSTester/mysql/sql.py:29-46 | TypeError exactly for the default where=False or a tuple of columns |
| SqlClient.InsertSql | RDSTester/mysql/sql.py:96-103 | KeyError exactly for a table num_of_cols does not know |
| SqlClient.UpdateSql | RDSTester/mysql/sql.py:109-125 | TypeError exactly for the default where=False |
| SqlClient.DeleteSql | RDSTester/mysql/sql.py:132-141 | TypeError exactly when where is missing |
| SqlClient.DmlState | RDSTester/mysql/sql.py:105-144 | ABORT exactly for a reply starting with abort, otherwise None (never SUCCESS) |
| SqlClient.FillHoles | RDSTester/mysql/sql.py:45-46 | replace("%s", v, 1) over a joined run of "p%s" fragments puts the values, in order, into the first placeholders |
| SqlClient.InsertFillsPositionally | RDSTester/mysql/sql.py:96-103 | insert fills its placeholders positionally and leaves the unfilled ones as %s |
| SqlClient.SelectFillsWhereInOrder | RDSTester/mysql/sql.py:29-46 | select places each WHERE value, in order, right after its column and operator |
| SqlClient.UpdateFillsSetThenWhere | RDSTester/mysql/sql.py:109-125 | update fills the SET values first and the WHERE values after them, each in list order |
| SqlClient.DeleteFillsWhereInOrder | RDSTester/mysql/sql.py:132-141 | delete places each WHERE value, in order, right after its column and operator |
| SqlClient.SkipHeader | RDSTester/mysql/sql.py:66-68 | the cursor after the first pipe and real_col_num more |
| SqlClient.Step | RDSTester/mysql/sql.py:85-90 | the next cell starts after the first pipe past the cursor (index 0 when find returns -1), and a later pipe must close it |
| SqlClient.CellText | RDSTester/mysql/sql.py:75-80 | the stripped text of a cell, free of pipes |
| SqlClient.StripCell | RDSTester/mysql/sql.py:80 | the cell text is strip() of the text between the cell start and its pipe |
| SqlClient.ReadRow | RDSTester/mysql/sql.py:74-82 | n cells read from the cursor, none when one is not closed |
| SqlClient.Decode | RDSTester/mysql/sql.py:73-90 | the rows of the reply as select decodes them, each of n stripped cells |
| SqlClient.DecodeChecked | RDSTester/mysql/sql.py:73-90 | the decoder with find's -1 checked: always n stripped cells a row |
| SqlClient.RunStops | RDSTester/mysql/sql.py:73-90 | a walk that stops before wrapping stops exactly after its run of steps |
| SqlClient.CycleNeverHalts | RDSTester/mysql/sql.py:75-85 | a walk that wraps from index 0 back to index 0 never stops |
| SqlClient.HaltsWithinBound | RDSTester/mysql/sql.py:73-90 | a walk that stops at all stops within a bound of steps |
| SqlClient.CheckedHalts | RDSTester/mysql/sql.py:73-90 | the checked walk always stops |
| SqlClient.LoopsForever | RDSTester/mysql/sql.py:73-90 | the decoder as written ends exactly on decodable replies and loops forever on any other |
| SqlClient.BarePipe | RDSTester/mysql/sql.py:73-90 | a lone pipe decodes to no rows for one column and loops for none |
| SqlClient.ReadLines | RDSTester/mysql/sql.py:73-90 | a table body of rows is read back whole |
| SqlClient.DecodeEncode | RDSTester/mysql/sql.py:66-90 | decoding a table reply with at least one row of stripped pipe-free cells gives its rows back, as written and checked |
| SqlClient.EmptyTableAsWritten | RDSTester/mysql/sql.py:85-89 | as written, a table reply without rows decodes to one bogus row: an empty cell and the header's other cells |
| SqlClient.EmptyTableChecked | RDSTester/mysql/sql.py:85-89 | the checked decoder gives no row for a table reply without rows |
| SqlClient.DecodeTable | RDSTester/mysql/sql.py:66-90 | the two loops of select decode exactly Decode |
| SqlClient.NextRow | RDSTester/mysql/sql.py:73-90 | one round of the outer loop: a row and the rest of the rows, or nothing left |
| SqlClient.PassHeader | RDSTester/mysql/sql.py:66-68 | the header loop stops at SkipHeader |
| SqlClient.ReadCells | RDSTester/mysql/sql.py:74-82 | the inner loop reads the row exactly when it is complete |
| SqlClient.RealColNum | RDSTester/mysql/sql.py:60-64 | the number of columns, num_of_cols of the joined table names for ['*'], KeyError when unknown |
| SqlClient.SelectReply | RDSTester/mysql/sql.py:49-90 | ABORT exactly for an abort reply; rows are well shaped for the column count |
| SqlClient.Select | RDSTester/mysql/sql.py:29-90 | a statement that cannot be built is a TypeError and nothing is sent; otherwise the statement sent is SelectSql and the result classifies the reply |
| TpccDriver.Terms | RDSTester/mysql/sql.py:37-46 | the WHERE list sent is the driver's condition list, term by term, with each value printed |
| TpccDriver.Selected | RDSTester/mysql/sql.py:32-43 | a read that does not raise hands the decoder the one-name column list select builds |
| TpccDriver.RaisesIffRenderFails | RDSTester/mysql/sql.py:29-46 | a statement raises exactly when its builder fails, and a read that raises raises TypeError |
| TpccDriver.Texts | RDSTester/mysql/driver.py:54-173 | the text sent for each statement of a script is what its builder renders |
| TpccDriver.FirstAbort | RDSTester/mysql/driver.py:61-74 | the first aborting statement at or after a position: every earlier one is clear |
| TpccDriver.AbortCut | RDSTester/mysql/driver.py:61-173 | a transaction returns SUCCESS exactly when no statement aborts, and then sends its whole script; otherwise it sends the script up to and including the first abort and returns ABORT |
| TpccDriver.SendDml | RDSTester/mysql/sql.py:105-144 | insert, update or delete sends one statement and stops the transaction exactly when the reply says abort |
| TpccDriver.WidthIsRealColNum | RDSTester/mysql/sql.py:47-60 | the width the decoder expects is real_col_num of the read's tables and columns |
| TpccDriver.SendRead | RDSTester/mysql/driver.py:65-79 | a read that raises sends nothing and falls to the except branch; otherwise it sends one statement, gets the decoded reply and stops exactly on an abort reply |
| TpccDriver.SendCommit | RDSTester/mysql/driver.py:170-173 | COMMIT after no abort completes the script and the outcome is SUCCESS |
| TpccDriver.FirstCellInt | RDSTester/mysql/driver.py:76-79 | eval(res[0][0]) when the reply has an integer first cell, the except default otherwise |
| TpccDriver.FirstCellRoundTrip | RDSTester/mysql/driver.py:375-376 | a reply whose first cell prints n gives back n |
| TpccDriver.OrderFromStock | RDSTester/mysql/driver.py:141-148 | the stock update: quantity drops by the ordered amount, or is refilled by 91 when fewer than 10 would remain; ytd, order count and remote count advance |
| TpccDriver.StockStaysInRange | RDSTester/mysql/driver.py:141-144 | from a stock quantity in 10..100 and an order of 1..10, the new quantity stays in 10..100 |
| TpccDriver.LineFromNoStock | RDSTester/mysql/driver.py:138-148 | from the except defaults the stock row becomes (91 - q, q, 1, remote) |
| TpccDriver.AllLocalMeaning | RDSTester/mysql/driver.py:106 | o_all_local is 1 exactly when every supplying warehouse is the same |
| TpccDriver.BrandGeneric | RDSTester/mysql/driver.py:159 | 'B' exactly when both the item data and the stock data contain ORIGINAL, 'G' otherwise |
| TpccDriver.NullItemIsGeneric | RDSTester/mysql/driver.py:125-159 | after the item read fails, i_data is 'null' and the line is generic |
| TpccDriver.DistInfo | RDSTester/mysql/driver.py:163 | s_dist[d_id-1] with Python indexing: IndexError exactly outside -len..len-1, the district's entry for 1 <= d_id <= len |
| TpccDriver.NoOrderLineInserted | RDSTester/mysql/driver.py:139-167 | with s_dist left empty, the order-line insert raises IndexError before it is sent |
| TpccDriver.NewOrderScript | RDSTester/mysql/driver.py:54-173 | new-order sends BEGIN, five header statements, one stock update per line and COMMIT; line i's update is the stock update of item i |
| TpccDriver.NewOrderSendable | RDSTester/mysql/driver.py:54-173 | no statement of the new-order script raises in its builder |
| TpccDriver.DoNewOrder | RDSTester/mysql/driver.py:54-173 | do_new_order sends exactly the new-order script up to its first abort and returns its outcome |
| TpccDriver.SendOrderLines | RDSTester/mysql/driver.py:114-168 | the order-line loop sends one statement per line and stops at the first abort |
| TpccDriver.CustomerData | RDSTester/mysql/driver.py:262-268 | the new c_data is a prefix of entry + old data, at most 500 characters, and all of it when that fits |
| TpccDriver.CustomerDataKeepsEntry | RDSTester/mysql/driver.py:262-268 | the payment entry is never cut off the front of c_data |
| TpccDriver.PaymentScript | RDSTester/mysql/driver.py:176-287 | payment sends BEGIN, four data statements and COMMIT |
| TpccDriver.PaymentSendable | RDSTester/mysql/driver.py:176-287 | no statement of the payment script raises in its builder |
| TpccDriver.ReadPaymentCustomer | RDSTester/mysql/driver.py:213-252 | the customer read, by name or by id, raises TypeError and sends nothing |
| TpccDriver.DoPayment | RDSTester/mysql/driver.py:176-287 | do_payment sends exactly the payment script up to its first abort and returns its outcome |
| TpccDriver.OrderStatusScript | RDSTester/mysql/driver.py:289-354 | order-status sends only BEGIN and COMMIT |
| TpccDriver.DoOrderStatus | RDSTester/mysql/driver.py:289-354 | do_order_status sends exactly that script up to its first abort and returns its outcome |
| TpccDriver.LeadDigitSum | RDSTester/mysql/driver.py:425-426 | sum of eval(o[0]): defined exactly when every cell starts with a digit, and then between 0 and 9 per cell |
| TpccDriver.DeliveredAmount | RDSTester/mysql/driver.py:414-428 | ol_amount is never negative, and for a one-column reply it is the first row's leading digit |
| TpccDriver.ReadsOf | RDSTester/mysql/driver.py:366-428 | the delivered amount a district's reads yield is never negative |
| TpccDriver.DistrictStmts | RDSTester/mysql/driver.py:366-454 | a district of delivery sends seven statements |
| TpccDriver.DistrictReadsOf | RDSTester/mysql/driver.py:365 | delivery covers ten districts |
| TpccDriver.DistrictReadsAt | RDSTester/mysql/driver.py:365-378 | district d's reads start at statement 7d - 6 |
| TpccDriver.DeliveryDistricts | RDSTester/mysql/driver.py:365-454 | n districts send 7n statements |
| TpccDriver.DeliveryScript | RDSTester/mysql/driver.py:357-462 | delivery sends BEGIN, seventy district statements and COMMIT |
| TpccDriver.DeliveryAt | RDSTester/mysql/driver.py:365-454 | statements 7d - 6 to 7d of the delivery script are district d's, built from what its own reads yield |
| TpccDriver.DeliverySendable | RDSTester/mysql/driver.py:357-462 | no statement of the delivery script raises in its builder |
| TpccDriver.ReadsOfFields | RDSTester/mysql/driver.py:366-428 | the oldest new order, its customer (2101 by default) and the amount are read from the replies at the district's own positions |
| TpccDriver.DistrictSetup | RDSTester/mysql/driver.py:365-454 | district d starts from its own seven statements and replies the delivery decodes |
| TpccDriver.DoDelivery | RDSTester/mysql/driver.py:357-462 | do_delivery sends exactly the delivery script up to its first abort and returns its outcome |
| TpccDriver.DeliverDistrict | RDSTester/mysql/driver.py:366-454 | one loop iteration sends the district's seven statements or stops at the first abort |
| TpccDriver.DeliverDistrictWith | RDSTester/mysql/driver.py:366-454 | the same, given what the district's reads yield |
| TpccDriver.TakeOldestOrder | RDSTester/mysql/driver.py:366-398 | the oldest new order is read and deleted, its customer read and its carrier set; four statements, stopping at an abort |
| TpccDriver.SettleCustomer | RDSTester/mysql/driver.py:399-454 | the line reads and the customer update: three statements, stopping at an abort |
| TpccDriver.LineItems | RDSTester/mysql/driver.py:489-492 | the item set holds the fifth cell of every returned line and nothing else |
| TpccDriver.StockLevelScript | RDSTester/mysql/driver.py:465-515 | stock-level sends BEGIN, the district read, the recent-lines read from the read next order id, one stock read per distinct item and COMMIT |
| TpccDriver.StockLevelSendable | RDSTester/mysql/driver.py:465-515 | no statement of the stock-level script raises in its builder |
| TpccDriver.DoStockLevel | RDSTester/mysql/driver.py:465-515 | do_stock_level sends exactly that script up to its first abort and returns its outcome |
| TpccDriver.SendStockReads | RDSTester/mysql/driver.py:494-506 | the item loop sends one stock read per item and stops at the first abort |
| TpccSchema.ColumnName | RDSTester/db/table_layouts.py:3-118 | every column name constant is longer than one character |
| TpccSchema.TableCounted | RDSTester/db/table_layouts.py:128-136 | every TPC-C table has a num_of_cols entry, equal to its width, so an insert into it never raises KeyError |
| TpccSchema.KeysCommaFree | RDSTester/db/table_layouts.py:128-136 | no key of num_of_cols holds a comma |
| TpccSchema.NotStar | RDSTester/db/table_layouts.py:3-118 | no column is named * |
| Workload.BitOr | RDSTester/util.py:36 | Python's bitwise or of two non-negative integers is at least either operand and at most their sum |
| Workload.BitOrZero | RDSTester/util.py:36 | an or with 0 leaves the other operand unchanged |
| Workload.NURand | RDSTester/util.py:35-36 | NURand(A, x, y, C) lies in [x, y) |
| Workload.RedrawFromZero | RDSTester/util.py:35-36 | with a first draw of 0 the redraw of get_c_last is the second draw plus C wrapped into 1..1000 |
| Workload.NURandOnto | RDSTester/util.py:35-36 | every value of [x, y) is produced by some draw |
| Workload.GetCId | RDSTester/util.py:50-51 | a customer id in 1..3000 |
| Workload.QueryCusBy | RDSTester/util.py:84-90 | the customer is always chosen by id, as get_c_id draws it |
| Workload.LastName | RDSTester/util.py:43 | the syllables for the hundreds, tens and units digits of k, in that order |
| Workload.GetCLastAsWritten | RDSTester/util.py:39-43 | get_c_last as written: the name of k for k < 1000; the only failure is an IndexError |
| Workload.GetCLastAsWrittenFails | RDSTester/util.py:41-43 | the redraw NURand(255, 1, 1001, C) can return 1000, which indexes _names[10] |
| Workload.RedrawOf1000Fails | RDSTester/util.py:39-43 | whenever the redraw yields 1000 get_c_last raises IndexError |
| Workload.GetCLast | RDSTester/util.py:39-43 | the name of k for k < 1000, and always the name of some number in 0..999 |
| Workload.GetOlIId | RDSTester/util.py:54-60 | 5 to 15 item ids in 1..100000, the last one replaced by the unused 100001 exactly when rbk is 0 |
| Workload.GetOlSupplyWId | RDSTester/util.py:63-66 | every line is supplied by the home warehouse; the remote branch, taken exactly when scale > 1 and a draw is 0, fails |
| Workload.GetOlQuantity | RDSTester/util.py:69-70 | one quantity per line, each in 1..10 |
| Workload.GetDId | RDSTester/util.py:73-74 | a district id in 1..10 |
| Workload.GetOCarrierId | RDSTester/util.py:96-97 | a carrier id in 1..10 |
| Workload.GetCWIdDId | RDSTester/util.py:77-81 | the customer is local (home warehouse, same district); the remote branch, taken exactly when scale > 1 and the draw is 85 or more, fails |
| Workload.SingleWarehouseIsLocal | RDSTester/tester.py:30-41 | with one warehouse every order line is supplied locally and the paying customer is local |
| Tester.GetChoice | RDSTester/tester.py:9-16 | the returned index is the first whose running total reaches r; no index only when every running total is below r |
| Tester.ChoiceUnique | RDSTester/tester.py:9-16 | at most one index is the choice for a given r |
| Tester.ChoiceReachable | RDSTester/tester.py:10-16 | for r up to the total some running total reaches r, so the final assertion is unreachable |
| Tester.ScaledDraw | RDSTester/tester.py:10 | random() * sum(choices) lies in [0, sum] for non-negative weights |
| Tester.ZeroWeightChoice | RDSTester/tester.py:12-15 | a zero-weight index is chosen only as index 0 when r is 0 |
| Tester.DoTest | RDSTester/tester.py:18-65 | over the five weights of txn_prob, txns slots, each kind chosen by get_choice, and the records written are those of every slot's retries in order |
| Tester.ChooseKind | RDSTester/tester.py:23 | get_choice on a draw at most the sum returns the choice |
| Tester.RunSlot | RDSTester/tester.py:24-65 | for one of the five kinds, the retry loop records each ABORT attempt and then the successful one |
| Tester.AbortTxns | RDSTester/tester.py:62-63 | k aborted attempts leave k put_txn records marked failed |
| Tester.SlotTxns | RDSTester/tester.py:24-65 | a slot with k aborts leaves k + 1 put_txn records of its kind, the first k failed and the last successful |
| Tester.AbortSuccesses | RDSTester/tester.py:62-63 | aborted attempts add no success |
| Tester.AttemptSuccesses | RDSTester/tester.py:62-65 | an attempt adds one success exactly when it did not abort |
| Tester.TestSuccesses | RDSTester/tester.py:18-65 | exactly txns transactions succeed, one per slot |
| Tester.SlotSuccesses | RDSTester/tester.py:24-65 | a slot succeeds exactly once, on its last attempt |
| Tester.AttemptNewOrderPoints | RDSTester/tester.py:26-37 | an attempt leaves one put_new_order point exactly when it is a New-Order |
| Tester.SlotNewOrderPoints | RDSTester/tester.py:24-37 | every New-Order attempt, aborted or not, leaves one put_new_order point |
| Tester.AbortNewOrderPoints | RDSTester/tester.py:24-37 | a run of aborted New-Order attempts leaves one point each |

## Left out

Restrictions on the inputs (each member names the cases it excludes; the source's behaviour there is an assertion failure, an exit or an endless loop):
- IndexScan.KeyColumn: index columns are INT or STRING. For a BIGINT or DATETIME index column, setMaxKey and setMinKey write nothing into the key buffers (src/execution/executor_index_scan.h:154-192), so the keys are garbage. The index scan's constructor, BuildRange and the range lemmas require KeyColumns.
- Conditions.Evaluates: every condition compares a column with a literal. A column-to-column condition reaches `assert(0)` in the scans' check_cond. SeqScan.FirstMatch, SeqScan.Filter and the scan executors require it.
- Conditions.Comparable: the literal has the column's type (other than FLOAT), or is a BIGINT against an INT column. Other mixed pairs and FLOAT are compared as doubles (src/execution/executor_seq_scan.h:94-106). Floating point is not modelled, so Conditions.Evaluates requires Comparable for every condition.
- NestedLoopJoin.JoinEvaluable: join conditions compare INT, BIGINT or CHAR columns of one type. DATETIME calls `exit(-1)` and mixed types reach `assert(0)`. FLOAT columns are compared by the source (src/execution/executor_nestedloop_join.h:363, src/execution/executor_hash_join.h:246-248); they are left out because floating point is not modelled. NestedLoopJoin.PairsEvaluateKept, the executor's constructor and the hash join (HashJoin.BuildTable, HashPartition.PartitionAll) require it for every pair.
- HashJoin.Hashable: hash-join columns are INT, as get_hash_code asserts for every other type.
- HashJoinExec.HashJoinExecutor.BeginTuple: requires an equality condition among the join conditions, so that both Partitions exist. Without one the source partitions on an uninitialised `left_part`.
- ExecManager.SelectWithAggregate: INT and STRING columns only. The BIGINT fold (src/execution/execution_manager.cpp:276-288) and the FLOAT fold are not modelled.
- Recovery.Walkable: every log record is at least a header and at most a buffer long. On a record of size 0, and on one larger than the buffer that starts at the front of it, the source's walk breaks out without advancing (src/recovery/log_recovery.cpp:34) and reads the same bytes again forever. Recovery.Redo and Recovery.RedoWalk require it.
- FieldValues.FieldFits: a DATETIME field is 19 bytes in a 19-byte column and a STRING field fits its column. Anything else fails setData's assertions (src/common/common.h:75, 79). FieldValues.FieldValue and the LOAD members require it.
- InsertExec.Loadable: besides FieldFits for every field, no row of a LOAD file may repeat a key already in an index, because insert_entry_for_load asserts it (src/index/ix_index_handle.cpp:306-308).
- PyStr.EvalInt: parses an optional minus sign and decimal digits only. Python's `eval` accepts far more, such as spaces, underscores, `+` and expressions. A cell outside this form counts as a parse failure, which selects the `except` default.
- ExecManager.NoFloat: FLOAT columns are excluded wherever records are built or compared (insert, update, select). Floating point is not modelled.

Abstractions and effects not modelled:
- IxNode.Node: keys are integers compared by integer order, standing for `ix_compare` over key bytes. The comparator is defined outside the modelled files.
- IxNode: only the node operations, split (with maintain_child on the moved children) and adjust_root are modelled. The tree-level insert_into_parent, coalesce and redistribute, and latch crabbing in find_leaf_page, are not. Child pages are passed in as node objects, one per moved rid; fetching and unpinning them through the buffer pool is not modelled.
- BufferPool.BufferPoolManager: the write-ahead step `log_manager_->ForceFlush(page_lsn)` before a page is written (the victim write-back, flush_page and new_page; src/storage/buffer_pool_manager.cpp:49-50, 236-237, 290-291) is not modelled. Page LSNs and the log are not part of the buffer pool model.
- BufferPool.BufferPoolManager: the LRU replacer is a sequence of frames, most recently unpinned first. lru_replacer is not part of this model. flush_all_pages and del_all_pages are not modelled.
- Disk.DiskManager: pages and files are maps. lseek, read, write, open and unlink are steps whose results are parameters.
- Recovery: a log record of a table that is not open finds no file handle; the source dereferences a null handle there (src/recovery/log_recovery.cpp:100, 227), and the model skips the record: the store is unchanged and undo logs no compensation for it.
- RecordScan.RmScan: `RmFileHandle` and `Bitmap` are a sequence of pages of slot bitmaps.
- Locking.LockManager: the waiting loop's `sleep` and the other threads are not modelled. In Locking.WaitGranted and Locking.LockManager.LockAsWritten each retry's check is a parameter, standing for the queue other threads may change between retries. Locking.LockManager.Lock, LockOwn and LockNew evaluate CheckQueueCompatible once on the current queue, since no other thread changes it in the model.
- Logging.LogManager.FlushRound: one round of the flush thread is one step, with no timer and no thread. Logging.LogManager.ForceFlush replaces the busy wait by that step.
- TxnManager.Compensation: undoing an UPDATE logs an UpdateLogRecord with the saved image first and the current image second. The record's constructor is defined in log_manager.h, which is not part of this model, so this argument order is assumed.
- IndexScan.BuildRange: the bound for a column compares against `max_key` as the source does (src/execution/executor_index_scan.h:252). The resulting range is sound but may be looser than the conditions allow. When the lower bound passes the upper bound, the scan window is empty: IxScan is not part of this model.
- HashPartition.Partition.GetPartition: reads a spilled partition as intended, its spill file and then its page. As written the read reaches `assert(0)` for every spilled partition (see Findings: HashPartition.SpillReadAsWritten).
- HashPartition.Partition: the spill files are sequences of records. flush_to_file and get_partition build different file names (src/execution/executor_hash_join.h:42-54, 138-141), and that is not modelled.
- NestedLoopJoin.JoinBlock: the temporary files are sequences of records.
- NestedLoopJoin.NestedLoopJoinExecutor.constructor: the uninitialised `matched_data` buffer is a parameter (matchedInit). The hash-join executor and the index scan's key buffers (minInit, maxInit) use the same convention.
- Values.Value.SetData: a STRING or DATETIME field shorter than its column is padded with zero bytes, as the zero-filled buffer the source copies into.
- InsertExec.Next: a key conflict returns Ok(false). The "failure" line appended to the output file and the message on stdout (src/execution/executor_insert.h, src/execution/executor_update.h:186-187) are not modelled. The same holds for UpdateExec.Next.
- InsertExec, UpdateExec, DeleteExec: the `page_lsn` updates on the record pages are not modelled.
- Catalog.SmManager: the metadata file and the stringstream output are a sequence of output lines. Files on disk are the Disk model's maps.
- ExecManager.IntAggregateMeaning: MAX over an INT column starts from 0, as the source does (src/execution/execution_manager.cpp:252, 267-268). A column of negative values therefore gives 0.
- TpccDriver: the server's replies are a parameter, and so is `current_time()`. The payment amount is passed as its printed text. The New-Order total (float arithmetic) and the timings `t1`/`t2` are not modelled. build, load, create_index and delay_close read SQL files and close the socket, and are not modelled.
- TpccDriver.DoPayment: the warehouse and district YTD updates send the text w_ytd+amount as the source does. The amount itself is not interpreted.
- Workload: rand_str, rand_dat, rand_digit, zip_code, rand_perm, current_time and get_h_amount produce data, not transaction parameters, and are not modelled.
- Tester.DoTest: `random.random()` and `time.time()` are parameters, and the weights are real numbers standing for Python floats. put_txn and put_new_order are records appended to a log. The sqlite storage behind them and its cross-process lock are not modelled.
- The rmdb client socket, runner.py, multiprocessing, and latches and mutexes throughout the engine are not modelled.

## Findings

| source | as written | input that shows it | evidently intended | confidence | as-written member | corrected member |
|---|---|---|---|---|---|---|
| src/storage/buffer_pool_manager.cpp:339-342 | delete_page puts the frame on the free list without taking it out of the replacer | a page unpinned to pin count 0 and then deleted | the freed frame leaves the LRU list, so it cannot be handed out twice | not executed | BufferPool.BufferPoolManager.DeletePageAsWritten, BufferPool.FreeWhileEvictableBreaks | BufferPool.BufferPoolManager.DeletePage |
| src/transaction/concurrency/lock_manager.cpp:251-280 | the retry loop leaves at MaxAttempt+1 when every check fails, skips the `== MaxAttempt` abort and sets granted_ | transaction 1 holds X on a record and transaction 2 asks for S while the queue stays unchanged | a request whose check never passes is refused with DEADLOCK_PREVENTION, not granted | not executed | Locking.LockManager.LockAsWritten, Locking.WaitAsWrittenGrantsAfterFailures, Locking.GrantAsWrittenExample | Locking.LockManager.Lock, Locking.WaitGranted |
| src/transaction/concurrency/lock_manager.cpp:118-130 | the abort test fires when the check first succeeds on attempt MaxAttempt | a request whose check passes only on the last allowed attempt | a successful check grants the lock | not executed | Locking.WaitAsWrittenAbortsOnLateSuccess | Locking.WaitGranted |
| src/common/common.h:56-63 | setData stores strtoll's result in an `int`, so a value beyond int wraps | the field "3000000000" for an INT column loads as -1294967296 | a value beyond int is refused with ResultOutOfRangeError | not executed | Values.IntFieldAsWritten, Values.IntFieldWraps | Values.IntField |
| src/execution/executor_seq_scan.h:92-93 | an INT column compared with a BIGINT literal is read as `long long`, taking in the next column's bytes | two records with the same INT column but different next columns | the condition depends only on the column's own value | not executed | Conditions.AsWrittenReadsNextColumn | Conditions.CondHoldsOnField |
| src/execution/executor_hash_join.h:328-333 | `2^limit` is XOR in C++, so the bucket count can be 0 or below the largest bucket code | a left partition of one tuple gets 0 buckets; one of eight gets 2 while codes reach 3 | a power of two large enough for every code | not executed | HashJoin.BucketNumAsWrittenTooSmall | HashJoin.BucketNum |
| src/execution/executor_hash_join.h:142-145 | get_partition's fread asks for tup_total_count records from a spill file that holds only the flushed ones, and any shorter count reaches `assert(0)` | a partition given one tuple more than a page holds: the file has a page's worth, tup_total_count is one more | fread asks for the flushed records, tup_total_count minus tup_count, and the page follows them | not executed | HashPartition.SpillReadAsWritten, HashPartition.SpilledReadAsWrittenFails | HashPartition.Partition.GetPartition |
| src/execution/executor_hash_join.h:340-354 | build_hash_table takes the first probe target from the bytes just past the left partition | one left and one right tuple both holding 256, zero bytes after the left partition | the first target is the first right tuple's bucket | not executed | HashJoin.FirstTargetAsWritten, HashJoin.FirstTargetAsWrittenSkipsPair | HashJoin.PartitionHashJoin.BuildHashTable |
| src/execution/executor_hash_join.h:383-405 | the probe loop reads right tuples from context.i + 1 up to right_num, one past the partition | any partition probed to its last right tuple | right tuples context.i + 1 to right_num - 1 | not executed | HashJoin.ProbedRightAsWritten, HashJoin.ProbedRightAsWrittenOverruns | HashJoin.PartitionHashJoin.ContinueProbe |
| src/execution/executor_hash_join.h:570-584 | with no partition shared by both sides, `join` stays null and `join->build_hash_table()` is still called | a join whose left child yields no tuple | the join ends at once with no result | not executed | HashJoinExec.EmptyLeftLeavesJoinUnset | HashJoinExec.HashJoinExecutor.BeginTuple |
| src/execution/executor_insert.h:66 | `while(getchar_from_buffer() != '\n');` never stops when the file has no newline | an empty load file, or one whose only line is not terminated | the skip also stops at the end of the file | not executed | LoadFile.SkipAsWritten, LoadFile.HeaderSkipHangs | LoadFile.Reader.SkipHeader |
| src/execution/executor_update.h:62-78 | the old index keys are deleted before the SET clauses are applied, so a failing clause leaves them deleted | an update on an indexed table whose SET string is too long for its column | the error leaves the table and its indexes as they were | not executed | UpdateExec.NextAsWritten, UpdateExec.ErrorLosesKey | UpdateExec.Next |
| RDSTester/mysql/sql.py:85-89 | on a table reply without rows, find returns -1 and the cursor wraps to the front, giving one bogus row | a reply holding only the header line | no rows | not executed | SqlClient.EmptyTableAsWritten | SqlClient.EmptyTableChecked |
| RDSTester/mysql/sql.py:73-90 | the decoder loops forever on a reply it cannot decode | a reply line with an unclosed cell | the decoder stops at find's -1 | not executed | SqlClient.LoopsForever | SqlClient.DecodeChecked |
| RDSTester/util.py:41-43 | the redraw NURand(255, 1, 1001, C) ranges over 1 to 1000, and 1000 indexes `_names[10]` | k = 1000 at load time with draws a = 0 and b = 882 | a redraw over 0 to 999 | not executed | Workload.GetCLastAsWritten, Workload.GetCLastAsWrittenFails | Workload.GetCLast |
