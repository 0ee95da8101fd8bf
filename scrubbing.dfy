/** The per-command rewrites applied to a help text before it is annotated
    (src/utils/scrubbing.rs): chains of `str::replace`, one line filter, and
    the dispatch on the command name. */
module Scrubbing {
  import opened Outcomes
  import opened RustStr

  // ------------------------------------------------------------------
  // The rules

  /** `getblockchaininfo` */
  function GetBlockchainInfo(raw: string): string {
    Replace(Replace(Replace(Replace(raw, "[0..1]", ""), "{ ... }      (object) progress toward rejecting pre-softfork blocks", "{\n\"status\": (boolean)\n\"found\": (numeric)\n\"required\": (numeric)\n\"window\": (numeric)\n}"),
                    "(same fields as \"enforce\")", ""), ", ...", "")
  }

  /** `getchaintips` */
  function GetChainTips(raw: string): string {
    Replace(Replace(Replace(raw, "Possible values for status:\n1.  \"invalid\"               This branch contains at least one invalid block\n2.  \"headers-only\"          Not all blocks for this branch are available, but the headers are valid\n3.  \"valid-headers\"         All blocks are available for this branch, but they were never fully validated\n4.  \"valid-fork\"            This branch is not part of the active chain, but is fully validated\n5.  \"active\"                This is the tip of the active main chain, which is certainly valid", ""), "\"height\": xxxx,\n", "\"height\": xxxx,         (numeric) height of the chain tip\n"), "\"hash\": \"xxxx\",\n", "\"hash\": \"xxxx\",         (string) block hash of the tip\n")
  }

  /** The continuation line `  ,...` of several help texts. */
  const ElidedEntry := "  ,...\n"

  /** `getspentinfo` */
  function GetSpentInfo(raw: string): string {
    Replace(Replace(raw, "number", "numeric"), ElidedEntry, "")
  }

  /** `listaccounts` */
  function ListAccounts(raw: string): string {
    Replace(Replace(raw, "                      (json object where keys are account names, and values are numeric balances", ""), "  ...\n", "")
  }

  /** `listreceivedbyaccount` */
  function ListReceivedByAccount(raw: string): string {
    Replace(Replace(raw, "bool", "boolean"), ElidedEntry, "")
  }

  /** `listreceivedbyaddress` */
  function ListReceivedByAddress(raw: string): string {
    Replace(Replace(raw, "bool", "boolean"), ElidedEntry, "")
  }

  /** The indentation of the wrapped description lines `listtransactions` drops. */
  const ContinuationIndent := "                                         "

  predicate Kept(line: string) {
    !StartsWith(line, ContinuationIndent)
  }

  /** `filter`: the lines that are kept, in their order. */
  function KeptLines(lines: seq<string>): seq<string>
    decreases |lines|
  {
    if lines == [] then []
    else (if Kept(lines[0]) then [lines[0]] else []) + KeptLines(lines[1..])
  }

  /** `fold`: each line followed by a line feed. */
  function Terminated(lines: seq<string>): string
    decreases |lines|
  {
    if lines == [] then "" else lines[0] + "\n" + Terminated(lines[1..])
  }

  /** `listtransactions` */
  function ListTransactions(raw: string): string {
    Terminated(KeptLines(Lines(raw)))
  }

  /** `z_listreceivedbyaddress` */
  function ZListReceivedByAddress(raw: string): string {
    Replace(Replace(raw, " (sprout) : n,", ": n, <sprout> "), " (sapling) : n,", ": n, <sapling> ")
  }

  const ArrayOfObjects := "(array) A list of JSON objects"
  const InsufficientObjects := "(INSUFFICIENT) A list of JSON objects"

  /** `z_getoperationstatus` */
  function ZGetOperationStatus(raw: string): string {
    Replace(raw, ArrayOfObjects, InsufficientObjects)
  }

  /** `z_getoperationresult` */
  function ZGetOperationResult(raw: string): string {
    Replace(raw, ArrayOfObjects, InsufficientObjects)
  }

  const DeltasMarker := "(or, if chainInfo is true):"

  const DeltaFields := "        \"satoshis\"    (number) The difference of zatoshis\n        \"txid\"        (string) The related txid\n        \"index\"       (number) The related input or output index\n        \"height\"      (number) The block height\n        \"address\"     (string)  The address base58check encoded"
  const DeltaFieldsLabelled := "        \"satoshis\":   (numeric) The difference of zatoshis\n        \"txid\":       (string) The related txid\n        \"index\":      (numeric) The related input or output index\n        \"height\":     (numeric) The block height\n        \"address\":    (string)  The address base58check encoded"
  const StartFields := "  \"start\":\n    {\n      \"hash\"          (string)  The start block hash\n      \"height\"        (numeric) The height of the start block\n    }"
  const StartFieldsLabelled := "  \"start\":\n    {\n      \"hash\":         (string)  The start block hash\n      \"height\":       (numeric) The height of the start block\n    }"
  const EndFields := "  \"end\":\n    {\n      \"hash\"          (string)  The end block hash\n      \"height\"        (numeric) The height of the end block\n    }"
  const EndFieldsLabelled := "  \"end\":\n    {\n      \"hash\":         (string)  The end block hash\n      \"height\":       (numeric) The height of the end block\n    }"

  /** The rewrites `getaddressdeltas` applies to the section it keeps. */
  function RewriteDeltas(section: string): string {
    var s := Replace(section, "\"deltas\":", "\"alsoStandalone<deltas>\":");
    var s := Replace(s, DeltaFields, DeltaFieldsLabelled);
    var s := Replace(s, ", ...", "");
    var s := Replace(s, StartFields, StartFieldsLabelled);
    Replace(s, EndFields, EndFieldsLabelled)
  }

  /** `getaddressdeltas`: keeps the trimmed text after the first
      "(or, if chainInfo is true):" up to the next one; indexing the pieces
      fails when the marker is absent. */
  function GetAddressDeltas(raw: string): (r: Result<string>)
    ensures r.Err? <==> !Contains(raw, DeltasMarker)
    ensures r.Err? ==> r.failure == MissingDeltasMarker
  {
    var sections := Split(raw, DeltasMarker);
    SplitSingle(raw, DeltasMarker);
    if |sections| < 2 then Err(MissingDeltasMarker)
    else Ok(RewriteDeltas(Trim(sections[1])))
  }

  /** `getblockdeltas!` */
  function GetBlockDeltas(raw: string): string {
    Replace(Replace(raw, "hex string", "hexadecimal"), "hexstring", "hexadecimal")
  }

  /** `submitblock!` */
  function SubmitBlock(raw: string): string {
    Replace(raw, "duplicate\" - node already has valid copy of block\n\"duplicate-invalid\" - node already has block, but it is invalid\n\"duplicate-inconclusive\" - node already has block but has not validated it\n\"inconclusive\" - node has not validated the block, it may not be on the node's current best chain\n\"rejected\" - block was rejected as invalid\nFor more information on submitblock parameters and results, see: https://github.com/bitcoin/bips/blob/master/bip-0022.mediawiki#block-submission", "duplicate\": (boolean) node already has valid copy of block\n\"duplicate-invalid\": (boolean) node already has block, but it is invalid\n\"duplicate-inconclusive\": (boolean) node already has block but has not validated it\n\"inconclusive\": (boolean)node has not validated the block, it may not be on the node's current best chain\n\"rejected\": (boolean) block was rejected as invalid")
  }

  /** `getaddressmempool!` */
  function GetAddressMempool(raw: string): string {
    Replace(raw, "number", "numeric")
  }

  /** `scrub`: the rule of the named command; any other command's text
      passes unchanged. */
  function Scrub(cmdName: string, resultData: string): (r: Result<string>)
  {
    if cmdName == "getblockchaininfo" then Ok(GetBlockchainInfo(resultData))
    else if cmdName == "getchaintips" then Ok(GetChainTips(resultData))
    else if cmdName == "getaddressmempool" then Ok(GetAddressMempool(resultData))
    else if cmdName == "getblockdeltas" then Ok(GetBlockDeltas(resultData))
    else if cmdName == "getspentinfo" then Ok(GetSpentInfo(resultData))
    else if cmdName == "submitblock" then Ok(SubmitBlock(resultData))
    else if cmdName == "listaccounts" then Ok(ListAccounts(resultData))
    else if cmdName == "listreceivedbyaccount" then Ok(ListReceivedByAccount(resultData))
    else if cmdName == "listreceivedbyaddress" then Ok(ListReceivedByAddress(resultData))
    else if cmdName == "listtransactions" then Ok(ListTransactions(resultData))
    else if cmdName == "z_listreceivedbyaddress" then Ok(ZListReceivedByAddress(resultData))
    else if cmdName == "z_getoperationstatus" then Ok(ZGetOperationStatus(resultData))
    else if cmdName == "z_getoperationresult" then Ok(ZGetOperationResult(resultData))
    else if cmdName == "getaddressdeltas" then GetAddressDeltas(resultData)
    else Ok(resultData)
  }

  // ------------------------------------------------------------------
  // Properties

  /** The commands that have a rule. */
  const Commands: set<string> := {
    "getblockchaininfo", "getchaintips", "getaddressmempool", "getblockdeltas", "getspentinfo", "submitblock", "listaccounts",
    "listreceivedbyaccount", "listreceivedbyaddress", "listtransactions", "z_listreceivedbyaddress", "z_getoperationstatus", "z_getoperationresult", "getaddressdeltas"
  }

  /** A command without a rule gets its text back unchanged. */
  lemma ScrubUnlisted(cmdName: string, resultData: string)
    requires cmdName !in Commands
    ensures Scrub(cmdName, resultData) == Ok(resultData)
  {
  }

  /** The two account listings share one rule, as do the two operation
      queries. */
  lemma ScrubRulesShared(resultData: string)
    ensures Scrub("listreceivedbyaccount", resultData) == Scrub("listreceivedbyaddress", resultData)
    ensures Scrub("z_getoperationstatus", resultData) == Scrub("z_getoperationresult", resultData)
  {
  }

  /** After `getaddressmempool!` no "number" is left. */
  lemma MempoolLeavesNoNumber(raw: string)
    ensures !Contains(GetAddressMempool(raw), "number")
  {
    var rep := "numeric";
    forall j | 0 <= j < |rep| ensures !Compatible(rep[j..], "number") {
      DiffersAt(rep[j..], "number", if j == 0 then 3 else 0);
    }
    ReplaceLeavesNoOccurrence(raw, "number", rep, "number");
  }

  /** After `z_getoperationstatus`, and after `z_getoperationresult`, which
      has the same rule, no "(array) A list of JSON objects" is left: the
      replacement starts with the pattern's only "(" and then differs. */
  lemma OperationRulesLeaveNoArray(raw: string)
    ensures !Contains(ZGetOperationStatus(raw), ArrayOfObjects)
    ensures !Contains(ZGetOperationResult(raw), ArrayOfObjects)
  {
    ArrayOfObjectsParts();
    InsufficientObjectsParts();
    OperationTailsLackParen();
    ReplaceClearsPattern(raw, '(', "array) A list of JSON objects", "INSUFFICIENT) A list of JSON objects");
  }

  lemma ArrayOfObjectsParts()
    ensures ArrayOfObjects == ['('] + "array) A list of JSON objects"
  {
  }

  lemma InsufficientObjectsParts()
    ensures InsufficientObjects == ['('] + "INSUFFICIENT) A list of JSON objects"
  {
  }

  lemma OperationTailsLackParen()
    ensures '(' !in "array) A list of JSON objects"
    ensures '(' !in "INSUFFICIENT) A list of JSON objects"
  {
  }

  /** `getspentinfo` is `getaddressmempool!` followed by deleting the
      continuation lines. */
  lemma SpentInfoRenamesThenDeletes(raw: string)
    ensures GetSpentInfo(raw) == Replace(GetAddressMempool(raw), ElidedEntry, "")
  {
  }

  /** Deleting a continuation line joins the text around it, when that
      text holds no "number" and the line is not repeated. */
  lemma SpentInfoJoins(a: string, b: string)
    requires ElidedEntry[0] !in a && !Contains(b, ElidedEntry)
    requires !Contains(a + ElidedEntry + b, "number")
    ensures GetSpentInfo(a + ElidedEntry + b) == a + b
  {
    ReplaceNoMatch(a + ElidedEntry + b, "number", "numeric");
    DeleteJoins(a, b, ElidedEntry);
  }

  /** "num", the continuation line, "ber" holds no "number". */
  lemma SplitNumber()
    ensures !Contains("num" + ElidedEntry + "ber", "number")
  {
    var t := "num" + ElidedEntry + "ber";
    MissingChar(t[1..], "number", 'n');
    forall i: nat | i <= |t| ensures !OccursAt(t, "number", i) {
      if i == 0 {
        assert t[..6][3] == t[3];
      } else if i + 6 <= |t| {
        assert t[1..][i - 1..i - 1 + 6] == t[i..i + 6];
      }
    }
  }

  /** The deletion can join a "number" back together. */
  lemma SpentInfoCanRejoinNumber()
    ensures GetSpentInfo("num" + ElidedEntry + "ber") == "number"
  {
    SplitNumber();
    MissingChar("ber", ElidedEntry, ',');
    SpentInfoJoins("num", "ber");
  }

  /** After `getblockdeltas!` neither spelling of "hex string" is left. */
  lemma BlockDeltasLeavesNoHexString(raw: string)
    ensures !Contains(GetBlockDeltas(raw), "hex string")
    ensures !Contains(GetBlockDeltas(raw), "hexstring")
  {
    var rep := "hexadecimal";
    forall j | 0 <= j < |rep| ensures !Compatible(rep[j..], "hex string") && !Compatible(rep[j..], "hexstring") {
      DiffersAt(rep[j..], "hex string", if j == 0 then 3 else 0);
      DiffersAt(rep[j..], "hexstring", if j == 0 then 3 else 0);
    }
    var once := Replace(raw, "hex string", rep);
    ReplaceLeavesNoOccurrence(raw, "hex string", rep, "hex string");
    ReplaceLeavesNoOccurrence(once, "hexstring", rep, "hex string");
    ReplaceLeavesNoOccurrence(once, "hexstring", rep, "hexstring");
  }

  /** Scrubbing is not idempotent: "bool" becomes "boolean", and again
      "booleanean". */
  lemma AccountRuleNotIdempotent()
    ensures ListReceivedByAccount("bool") == "boolean"
    ensures ListReceivedByAccount(ListReceivedByAccount("bool")) == "booleanean"
  {
    var once := "boolean";
    assert once[..4] == "bool" && once[4..] == "ean";
    assert Replace("bool", "bool", once) == once;
    assert Replace(once, "bool", once) == "booleanean";
    MissingChar(once, ElidedEntry, ',');
    ReplaceNoMatch(once, ElidedEntry, "");
    MissingChar("booleanean", ElidedEntry, ',');
    ReplaceNoMatch("booleanean", ElidedEntry, "");
  }

  /** The kept lines are exactly the input lines without the continuation
      indentation. */
  lemma {:induction false} KeptLinesMembers(lines: seq<string>, line: string)
    ensures line in KeptLines(lines) <==> line in lines && Kept(line)
    decreases |lines|
  {
    if lines != [] {
      KeptLinesMembers(lines[1..], line);
      assert lines == [lines[0]] + lines[1..];
    }
  }

  /** Splitting the terminated text on line feeds gives the lines back,
      and one empty piece after the last terminator. */
  lemma {:induction false} TerminatedSplits(lines: seq<string>)
    requires forall i :: 0 <= i < |lines| ==> '\n' !in lines[i]
    ensures Split(Terminated(lines), "\n") == lines + [""]
    decreases |lines|
  {
    if lines == [] {
      SplitWithoutChar("", '\n');
    } else {
      TerminatedSplits(lines[1..]);
      FirstAtEnd(lines[0], '\n');
      SplitAtFirst(lines[0], Terminated(lines[1..]), "\n");
      ConsAppend(lines, "");
    }
  }

  lemma ConsAppend(xs: seq<string>, x: string)
    requires xs != []
    ensures xs + [x] == [xs[0]] + (xs[1..] + [x])
  {
    assert xs == [xs[0]] + xs[1..];
  }

  /** `listtransactions` writes the kept lines of its input, in order, each
      followed by a line feed: splitting its output on line feeds recovers them. */
  lemma ListTransactionsSplits(raw: string)
    ensures Split(ListTransactions(raw), "\n") == KeptLines(Lines(raw)) + [""]
  {
    var lines := Lines(raw);
    var kept := KeptLines(lines);
    forall i | 0 <= i < |kept| ensures '\n' !in kept[i] {
      KeptLinesMembers(lines, kept[i]);
    }
    TerminatedSplits(kept);
  }

  /** `getaddressdeltas` reads the section after the first marker, up to
      the next marker or the end. */
  lemma AddressDeltasReadsSection(pre: string, tail: string)
    requires IndexOf(pre + DeltasMarker, DeltasMarker) == Some(|pre|)
    ensures GetAddressDeltas(pre + DeltasMarker + tail) == Ok(RewriteDeltas(Trim(Split(tail, DeltasMarker)[0])))
  {
    SplitAtFirst(pre, tail, DeltasMarker);
  }
}
