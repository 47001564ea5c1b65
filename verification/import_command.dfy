/** `importCommand` (`src/cli/import.command.ts`): read the file, stop early
    on an empty result, hand the records to the import loop, and exit with
    status 1 on any error. */
module ImportCommand {
  import opened Results
  import opened TsvReader
  import opened Entities
  import opened ImportService

  datatype CommandOutcome =
    | Completed            // the import finished
    | NoData               // `offers.length === 0`: a warning and an early return
    | ExitedWithError      // `process.exit(1)` after a failed read or a failed import

  /** The command once `readTSV` has produced `read`. `imports` counts the
      calls to `importOffers`. */
  method RunImportCommand(read: Result<seq<ParsedOffer>, ReadError>, store: Store,
                          connectOk: bool, disconnectOk: bool, validDate: DateCheck)
    returns (outcome: CommandOutcome, result: Store, imports: nat)
    ensures outcome == NoData <==> read.Ok? && |read.value| == 0
    ensures read.Err? ==> outcome == ExitedWithError && result == store && imports == 0
    ensures read.Ok? && |read.value| > 0 ==> (imports == 1
      && (outcome == Completed <==> connectOk && disconnectOk)
      && result == (if connectOk then Run(store, read.value, validDate).store else store))
  {
    imports := 0;
    result := store;
    if read.Err? {
      return ExitedWithError, result, imports;
    }
    var offers := read.value;
    if |offers| == 0 {
      return NoData, result, imports;
    }
    var finished, disconnects;
    finished, result, disconnects := ImportOffers(store, offers, connectOk, disconnectOk, validDate);
    imports := imports + 1;
    outcome := if finished.Finished? then Completed else ExitedWithError;
  }

  /** A successful read is never empty, so the command never takes its
      no-data branch for a file's content: it either exits with an error or
      runs the import. */
  lemma NoDataUnreachable(file: Option<string>)
    ensures ReadTsv(file).Ok? ==> |ReadTsv(file).value| >= 1
  {
  }
}
