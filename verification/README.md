# Verified models of the zkSync tooling

A Dafny 4.11 project about seven self-contained algorithms of the repository: the generator of the
bootloader's transaction utilities, the Solidity storage reader, the configuration compiler with its
environment files, the publisher of system bytecodes, the formatter of SQL inside Rust files, the
generator of the verifier contract, and the construction and comparison of diamond cuts.
`dafny verify dfyconfig.toml` checks every file. Lemmas carry `{:induction false}`, so that each proof
is its body.

Each algorithm is modelled in its own form (loops as methods with invariants, objects that change as
classes, pure code as functions) and proved against an independent reference:

* **Transaction utilities** (`Words`, `AbiEncoding`, `TupleCheck`, `Yul`, `TxLayout`, `TxLayoutCorrect`,
  `TxTable`, `TxFields`). `Yul` gives the emitted code a semantics over 256-bit words and byte-addressed memory, and
  `AbiEncoding` the tuple encoding of the Solidity Contract ABI Specification, section "Formal Specification
  of the Encoding". For every field table, running the emitted `validateAbiEncoding` accepts a memory image
  exactly when the image is the packed encoding of a well-typed tuple; the emitted getters give that tuple
  back; its tails are consecutive; and the validator's last expected position is the start plus the emitted
  `getDataLength`. The checks the emitted code calls are modelled from the bootloader, wrap-around included:
  a length within 31 of 2^256 wraps in `lengthRoundedByWords` and is still rejected.
* **Storage reader** (`SolidityStorage`, `StorageFacts`, `StorageReader`, `StorageLayout`, `VariableNames`).
  `StorageLayout` states Solidity's layout of state variables in storage for whole values, nested arrays and
  structs included. The cached, mutually recursive reader gives back the value that lies in storage if and only
  if none of its byte strings has a positive length that is a multiple of 32 and none of its parts has a type the
  reader does not know; the same holds for every part that a printed name leads to, through mappings too, from
  the place at which its variable is declared. Reading a part is reading the whole and projecting; the running walk
  through packed arrays visits the places that division gives.
* **Configuration** (`ConfigTree`, `ConfigVariables`, `ConfigLoader`, `ConfigOrder`, `ConfigFile`, `EnvFile`,
  `PushConfig`). Loading terminates, restores
  the shared stack, and succeeds if and only if the reachable imports are loadable and acyclic. Flattening the
  merged sources binds every variable to the last source that has it; merging overrides leaf by leaf if and
  only if the shapes agree. Text edits of an environment file refine map updates, over whole runs; `pushConfig`
  leaves each of its variables with its own value, on a file that did not exist and when it is called again.
* **Publisher** (`Publisher`, `PublisherFacts`). A run sends exactly the bytecodes the chain does not know, in order, in the
  fewest batches within the limit, with consecutive nonces.
* **SQL formatter** (`SqlText`, `SqlFormat`, `SqlFormatCorrect`, `SqlFormatTwice`, `SqlLayout`, `SqlOneLine`,
  `SqlRegular`, `SqlCalls`). Every file is rewritten as the rendering of its pieces in order. The pieces are the lines of the
  file, each once and in order, if and only if no call arrives inside a query and none is open at the end. An
  embedded query is written the same way again if and only if it settles, and formatting is idempotent when every
  query does; for a formatter that is idempotent, ignores layout and writes no blank lines, each of them does
  (`SqlLayout` shows that there is such a formatter).
* **Verifier generator** (`HexLiterals`, `GeneratedCode`, `VerifierKey`, `VerifierConstants`,
  `VerifierSlots`). The generated text
  is read back and run: every commitment slot ends with the sum of its own coordinate's limbs, for lists of any
  length, and every constant has its own value.
* **Diamond cuts** (`Diamond`, `CutSemantics`, `FacetCuts`, `FacetUpgrade`, `CutComparison`). The storage library's swap-and-pop tables refine
  the cut semantics of the Specification section of EIP-2535; the cuts built for an upgrade apply to the diamond
  they were read from exactly under a condition on names, signatures and routes, and leave exactly the routes they
  should; and the consistency checker's comparison passes exactly
  when, for every facet, both lists have cuts of the same meaning in the same order.

## What the models show about the code

* The emitted `validateAbiEncoding` never assigns its result, so that it returns zero whenever it accepts; the
  maintained copy in the bootloader does assign it. The emitted length getters call `lengthToWords`, which is
  nowhere defined; it is modelled by the bootloader's `lengthRoundedByWords`, as the comment at
  `contracts/system-contracts/scripts/constants.ts:361-363` asks for.
* `readDynamicBytes` drops the last 32 bytes of strings whose length is a positive multiple of 32
  (`StorageFacts.DynamicBytesRead`). Variables of contract type are read as undefined.
* Writing a variable whose name occurs in the name of one that is set, while it is not set itself, overwrites the
  other variable and never sets its own (`EnvFile.ModifyBinds`, `PushConfig.WrongOrder`). `pushConfig` writes its
  variables in an order that avoids this.
* A call inside an open query makes the formatter lose the lines of the query so far, and a one-line call inside
  one is written before it; a query that is still open at the end of the file is dropped
  (`SqlFormatCorrect.CallInsideLoses`, `SqlFormatCorrect.OneLineOvertakes`).
* A one-line string that ends in an escaped backslash is cut after its first character
  (`SqlOneLine.BackslashSplit`), and the empty one-line query `""` one character too late.
* A query that the SQL formatter rejects is kept, and begins with a blank line once it is embedded. Formatting
  the file again cuts each of its lines to the last character (`SqlFormatTwice.RejectedNeverSettles`).
* `format_const` prints zero as `0x`, and numbers of 38 to 40 significant hex digits as literals that Solidity
  takes for addresses (`VerifierConstants.LongConstantFails`).
* The facet-cut comparison reports a difference for exchanged cuts of one facet
  (`CutComparison.RepeatedFacetFails`).

## Model

| member | source | states |
|---|---|---|
| Words.SafeAdd | contracts/system-contracts/bootloader/bootloader.yul:3574-3579 | The test `lt(ret, x)` after a wrapping addition detects exactly the sums that do not fit a word |
| Words.SafeMul | contracts/system-contracts/bootloader/bootloader.yul:3551-3562 | Dividing the wrapped product back detects exactly the products that do not fit a word |
| Words.BitAndMask | contracts/system-contracts/bootloader/bootloader.yul:3521-3531 | Conjunction with the mask 2^k - 1 is the remainder by 2^k |
| AbiEncoding.RoundedLength | contracts/system-contracts/bootloader/bootloader.yul:552-555 | Rounding up to whole words, for every word: correct except within 31 of 2^256, where it wraps to zero |
| AbiEncoding.HugeLengthRejected | contracts/system-contracts/bootloader/bootloader.yul:3503-3535 | `validateBytes` rejects every length whose rounding wraps |
| AbiEncoding.MaskTestsPadding | contracts/system-contracts/bootloader/bootloader.yul:3517-3532 | The mask on the last word is zero exactly when all padding bytes are zero |
| AbiEncoding.ValidateBytesExact | contracts/system-contracts/bootloader/bootloader.yul:3503-3535 | `validateBytes` returns the end of the encoding exactly when memory holds the padded encoding of the byte string it reads as, for every memory and position |
| AbiEncoding.ValidateExact | contracts/system-contracts/bootloader/bootloader.yul:3503-3544 | The same for both dynamic types |
| AbiEncoding.ReadInvertsTail | contracts/system-contracts/scripts/constants.ts:309-318 | Reading a component that lies encoded in memory gives its value |
| TupleCheck.AcceptsIffCanonical | contracts/system-contracts/scripts/constants.ts:371-428 | The checks on a tuple pass exactly when what is read is well typed and its canonical, gapless encoding is what memory holds |
| TupleCheck.EncodingAccepted | contracts/system-contracts/scripts/constants.ts:398-428 | Conversely every well-typed tuple's encoding passes, reads back as that tuple, and ends where the checks end |
| TupleCheck.TailsConsecutive | contracts/system-contracts/scripts/constants.ts:403-426 | The first tail follows the head at once and each tail follows the one before, up to the end of the encoding |
| TupleCheck.HeldInTuple | contracts/system-contracts/scripts/constants.ts:299-318 | Every component of a held tuple is found through its head word, at its consecutive place |
| TxLayout.ValidateFixedSizeField | contracts/system-contracts/scripts/constants.ts:371-396 | Emits the check, or fails exactly for messages of more than 32 characters; `uint256` has no check |
| TxLayout.GetTransactionUtils | contracts/system-contracts/scripts/constants.ts:430-465 | The loops over the table emit the program of its head words, each getter at its own offset, and fail exactly when a needed message is too long |
| TxLayoutCorrect.GetterMeans | contracts/system-contracts/scripts/constants.ts:299-307 | Running an emitted getter gives the head word at its offset |
| TxLayoutCorrect.PtrGetterMeans | contracts/system-contracts/scripts/constants.ts:309-318 | Running an emitted pointer getter gives the start plus the head word, modulo 2^256 |
| TxLayoutCorrect.LengthGetterMeans | contracts/system-contracts/scripts/constants.ts:332-349 | Running an emitted length getter gives the padded size behind the length word, for both dynamic types |
| TxLayoutCorrect.GettersAnswer | contracts/system-contracts/scripts/constants.ts:439-458 | In every emitted program every getter answers for its own head word |
| TxLayoutCorrect.ValidatorRuns | contracts/system-contracts/scripts/constants.ts:398-428 | The body of the emitted validator ends normally exactly when the tuple checks pass, with the end of the tails as expected position, and in an assertion error otherwise |
| TxLayoutCorrect.ValidatorReturns | contracts/system-contracts/scripts/constants.ts:419-428 | Calling the validator returns zero when it accepts and is an assertion error otherwise |
| TxLayoutCorrect.ValidatorExact | contracts/system-contracts/scripts/constants.ts:371-465 | For every field table: the emitted validator accepts exactly when memory holds the encoding of some well-typed tuple |
| TxLayoutCorrect.FixedGetterInverts | contracts/system-contracts/scripts/constants.ts:299-307 | On an encoded tuple the getter of a fixed field gives the encoded number |
| TxLayoutCorrect.DynamicGettersInvert | contracts/system-contracts/scripts/constants.ts:309-349 | On an encoded tuple the two getters of a dynamic field lead to its encoded component and give its padded size |
| TxLayoutCorrect.DataLengthExact | contracts/system-contracts/scripts/constants.ts:351-369 | On an encoded tuple the emitted `getDataLength` is the size of the whole encoding |
| TxLayoutCorrect.FinalPointer | contracts/system-contracts/scripts/constants.ts:351-428 | On every accepted image the validator's last expected position is the start plus the emitted `getDataLength` |
| TxTable.ApartIsDistinct | contracts/system-contracts/scripts/constants.ts:291-330 | A condition on field names under which all emitted functions have distinct names |
| TxTable.TransactionTable | contracts/system-contracts/scripts/constants.ts:253-278 | The transaction's own table can be emitted and its functions have distinct names |
| TxFields.FieldAt | contracts/system-contracts/scripts/constants.ts:437-459 | For every table: each field lies right behind the fields before it, arrays with one numbered word for each element |
| TxFields.FieldAnswers | contracts/system-contracts/scripts/constants.ts:291-318 | Running the emitted getter of a field, under its capitalized name, reads the head word at the field's place in the table |
| TxFields.EmittableIff | contracts/system-contracts/scripts/constants.ts:385-396 | A table can be emitted if and only if no field that needs a check has a name of more than 23 characters |
| TxFields.TypeBounds | contracts/system-contracts/bootloader/bootloader.yul:3477-3499 | The fixed types end at 2^160, 2^32, 2^128 and 2^256 |
| TxFields.ValidatorReports | contracts/system-contracts/scripts/constants.ts:371-428 | A rejected encoding is reported under the first field whose number is too large, else under the first component that is not where the one before it ends, else as a failed check of contents |
| TxFields.TransactionNumbers | contracts/system-contracts/scripts/constants.ts:253-262 | The eight numbers of the bootloader's transaction are read from its first eight words, by these names |
| TxFields.TransactionReserved | contracts/system-contracts/scripts/constants.ts:271 | Its six reserved words follow |
| TxFields.TransactionPointers | contracts/system-contracts/scripts/constants.ts:272-277 | The pointers to its five dynamic parts come last |
| StorageReader.Reader.GetStorageAt | contracts/l1-contracts/scripts/read-variable.ts:10-17 | The cache never changes an answer, and remembers it |
| StorageReader.Reader.ReadDynamicBytes | contracts/l1-contracts/scripts/read-variable.ts:26-50 | The two loops read the byte string that the parity bit and the length describe |
| StorageReader.Reader.ReadPrimitive | contracts/l1-contracts/scripts/read-variable.ts:53-107 | Dispatch on the type's name |
| StorageReader.Reader.ReadStruct | contracts/l1-contracts/scripts/read-variable.ts:110-124 | The loop reads every member at its own slot and offset |
| StorageReader.Reader.ReadArray | contracts/l1-contracts/scripts/read-variable.ts:127-156 | The running slot and shift read every element where division places it |
| StorageReader.Reader.ReadVariable | contracts/l1-contracts/scripts/read-variable.ts:159-164 | The three mutually recursive readers give the value of the recursive specification, for every table whose types end; `StorageLayout.ReadsBack` says when that is the value in storage |
| StorageReader.Reader.ReadPartOfStruct | contracts/l1-contracts/scripts/read-variable.ts:167-175 | Reads the named member's part, or reports an invalid field name |
| StorageReader.Reader.ReadPartOfArray | contracts/l1-contracts/scripts/read-variable.ts:178-194 | Reads the indexed element's part at the slot and shift that division and remainder give |
| StorageReader.Reader.ReadPartOfMap | contracts/l1-contracts/scripts/read-variable.ts:227-236 | Reads the part of the value at the key's slot |
| StorageReader.Reader.ReadPartOfVariable | contracts/l1-contracts/scripts/read-variable.ts:239-260 | Dispatch along the path |
| StorageFacts.PackedNumberRead | contracts/l1-contracts/scripts/read-variable.ts:20-67 | A signed or unsigned number of any size, packed at any offset, is read as itself |
| StorageFacts.WalkIsDivision | contracts/l1-contracts/scripts/read-variable.ts:136-153 | For every element size and index the running walk is at the slot and shift of division and remainder |
| StorageFacts.NoStraddle | contracts/l1-contracts/scripts/read-variable.ts:136-147 | No element smaller than a word straddles two slots |
| StorageFacts.ElementsDisjoint | contracts/l1-contracts/scripts/read-variable.ts:178-194 | Distinct elements, small or large, occupy disjoint bytes |
| StorageFacts.DynamicBytesRead | contracts/l1-contracts/scripts/read-variable.ts:26-50 | What an encoded byte string is read as, for every length |
| StorageFacts.DynamicBytesInverts | contracts/l1-contracts/scripts/read-variable.ts:26-50 | Reading inverts the encoding if and only if the length is below 32 or no multiple of 32 |
| StorageFacts.ThirtyTwoBytesLost | contracts/l1-contracts/scripts/read-variable.ts:39-47 | In every storage that holds 32 zero bytes as Solidity encodes them, and zeros elsewhere, they are read as none |
| StorageFacts.BytesCanBeLost | contracts/l1-contracts/scripts/read-variable.ts:39-47 | There is such a storage |
| StorageFacts.BytesCanBeHeld | contracts/l1-contracts/scripts/read-variable.ts:26-50 | Every byte string has a storage that holds it, so that the statements about held ones are about all |
| StorageFacts.StaticLengthPrinted | contracts/l1-contracts/scripts/read-variable.ts:127-135 | The length in the name of a static array type is recovered, for every base type's name |
| StorageFacts.MappingsAreUndefined | contracts/l1-contracts/scripts/read-variable.ts:85-107 | Mappings are not read as a whole |
| StorageFacts.PartIsProjection | contracts/l1-contracts/scripts/read-variable.ts:110-260 | For every acyclic table, type and path: reading a part gives what projecting the whole gives, and unknown fields are reported |
| StorageLayout.PrimitiveReadsBack | contracts/l1-contracts/scripts/read-variable.ts:53-107 | A primitive value that lies in storage as Solidity lays it out is read back if and only if it is no byte string of a positive length that is a multiple of 32 and of no unknown type |
| StorageLayout.ReadsBack | contracts/l1-contracts/scripts/read-variable.ts:20-163 | For every acyclic table, type and value, arrays and structs nested in any way: a value that lies in storage as Solidity lays it out is read back if and only if every primitive part of it is |
| StorageLayout.PartIsAt | contracts/l1-contracts/scripts/read-variable.ts:167-260 | Reading a part reads the variable at the documented place of the part, through arrays, structs and mappings nested in any way |
| StorageLayout.PartReadsBack | contracts/l1-contracts/scripts/read-variable.ts:167-260 | What lies at that place is read back if and only if it is readable |
| StorageLayout.MappedPart | contracts/l1-contracts/scripts/read-variable.ts:227-236 | The value of a mapping at a key, and every part of it, is read at the key's own slot, for every key and path |
| VariableNames.ParseName | contracts/l1-contracts/scripts/read-variable.ts:264-309 | The character loop computes the segments, or the first error |
| VariableNames.ParsePrinted | contracts/l1-contracts/scripts/read-variable.ts:264-321 | Parsing a printed path gives its segments reversed, and the name before them, for every clean base and path |
| VariableNames.NameBeforeStop | contracts/l1-contracts/scripts/read-variable.ts:312-321 | The variable's name is what precedes the first dot or bracket, in whichever order they come |
| VariableNames.PopsInOrder | contracts/l1-contracts/scripts/read-variable.ts:168-169 | Taking the last parameter again and again yields the segments in order |
| VariableNames.PrintedPartIsProjection | contracts/l1-contracts/scripts/read-variable.ts:324-358 | What is printed for a path is the projection of what is printed for its variable |
| VariableNames.ParsesIffBracketed | contracts/l1-contracts/scripts/read-variable.ts:264-309 | A name is parsed if and only if the brackets after its first dot or bracket are flat, closed and free of dots; which of the two errors is reported otherwise |
| VariableNames.ReadsDeclared | contracts/l1-contracts/scripts/read-variable.ts:345-357 | The command reads at the slot and offset of the last row of that name |
| VariableNames.CommandReads | contracts/l1-contracts/scripts/read-variable.ts:324-358 | For a declared variable and a path that leads to a value in storage, the value is printed if and only if it is readable |
| VariableNames.CommandProjects | contracts/l1-contracts/scripts/read-variable.ts:324-358 | A readable variable is printed as the value at its declared place, and its parts as the parts of that value |
| VariableNames.UndeclaredFails | contracts/l1-contracts/scripts/read-variable.ts:348-356 | A name that is not declared is reported |
| ConfigTree.MergeOverrides | infrastructure/zk/src/config.ts:47-52 | On agreeing shapes, every leaf of a merge is the right one's where it has it and the left one's otherwise |
| ConfigTree.OverridesOnlyIfAgree | infrastructure/zk/src/config.ts:47-52 | Conversely shapes agree if merging overrides leaf by leaf |
| ConfigTree.AgreeAfterMerge | infrastructure/zk/src/config.ts:47-52 | Merging keeps agreement with a later source |
| ConfigTree.AgreeBeforeMerge | infrastructure/zk/src/config.ts:47-52 | Merging keeps agreement with an earlier source |
| ConfigTree.MergeAllIsLast | infrastructure/zk/src/config.ts:47-52 | In the merge of any number of agreeing sources every leaf is the last source's that has it |
| ConfigVariables.CollectVariables | infrastructure/zk/src/config.ts:65-99 | In any key order, the collected variables are the leaves below the prefix under their upper-cased joined names, and every leaf has a variable |
| ConfigVariables.VariablesAreLeaves | infrastructure/zk/src/config.ts:65-99 | Without colliding names there is exactly one variable for each leaf, with its value |
| ConfigVariables.PlainArray | infrastructure/zk/src/config.ts:82-86 | A plain array is one variable, its elements between quotes with commas between them, for every list of texts |
| ConfigVariables.ArrayOfObjects | infrastructure/zk/src/config.ts:74-81 | An array of objects has the variables of its elements under their indices |
| ConfigVariables.UpperLetters | infrastructure/zk/src/config.ts:69 | The letters of a name become capitals and its other characters stay |
| ConfigLoader.LoadsIffAcyclic | infrastructure/zk/src/config.ts:10-63 | Loading succeeds if and only if every file reachable through files and folders is loadable and no walk of imports repeats one; shared imports are accepted |
| ConfigLoader.LoadedRepresents | infrastructure/zk/src/config.ts:35-63 | What is loaded is the merge of the files in import order, each file after its imports |
| ConfigLoader.CompiledVariables | infrastructure/zk/src/config.ts:101-126 | Compiling binds each variable of any file that was read to the value of the last file that has it, and makes no other variable |
| ConfigLoader.Loader.LoadConfigFile | infrastructure/zk/src/config.ts:10-53 | Terminates, gives what the specification gives on the stack it found, and leaves the shared stack as it was on success |
| ConfigLoader.Loader.LoadConfigFolder | infrastructure/zk/src/config.ts:55-63 | The same for folders |
| ConfigOrder.ImportsAreListed | infrastructure/zk/src/config.ts:34-47 | The imports are the elements of `__imports__`, in order, and none of that list is a variable |
| ConfigOrder.FolderInOrder | infrastructure/zk/src/config.ts:55-61 | The files of a folder are exactly those whose names end in `.env` or `.toml`, in the order of the names, each once |
| ConfigOrder.FolderFileIsSource | infrastructure/zk/src/config.ts:34-61 | The values of every such file of an imported folder are among the sources |
| ConfigOrder.ImportOrder | infrastructure/zk/src/config.ts:34-52 | A file's own values decide over its imports, and later imports over earlier ones, in the order of the list |
| ConfigOrder.FolderOrder | infrastructure/zk/src/config.ts:55-62 | Of the files of a folder the later ones decide, in the order of the names |
| ConfigFile.CompileConfig | infrastructure/zk/src/config.ts:113-126 | In any order of the variables, the file that is written sets exactly these variables to their values |
| EnvFile.Env.Modify | infrastructure/zk/src/env.ts:97-117 | The new contents of a missing file, of one that mentions the name, and of one that does not |
| EnvFile.Env.ReplaceInFile | etc/utils/src/index.ts:117-126 | The file is the old one with every match replaced |
| EnvFile.ReplaceByLine | etc/utils/src/index.ts:117-120 | The global replacement of a name up to the end of its line edits each line by itself |
| EnvFile.ModifyRefinesMap | infrastructure/zk/src/env.ts:97-117 | On a tidy file the text edit does to the variables what the map update does, and leaves the file tidy |
| EnvFile.ModifyBinds | infrastructure/zk/src/env.ts:106-112 | One edit sets its variable if and only if it is set already or its name occurs in no name that is set |
| EnvFile.ModifyKeeps | infrastructure/zk/src/env.ts:106-112 | One edit changes no variable in whose name the edited name does not occur |
| EnvFile.NamedValue | infrastructure/zk/src/env.ts:98 | A value given together with its name is written like the value alone |
| EnvFile.NamedRefinesMap | infrastructure/zk/src/env.ts:97-112 | So on a tidy file it sets the variables like the value alone |
| EnvFile.TrailingBlanks | infrastructure/zk/src/env.ts:98-112 | Blanks behind a value are dropped where the variable is replaced and kept where it is added |
| EnvFile.RunOfModifies | infrastructure/zk/src/env.ts:97-117 | A run that writes every name before those that contain it leaves every written variable at its last value, every variable in whose name no written name occurs as it was, and the file ready for another such run |
| PushConfig.RunOfWords | infrastructure/zk/src/config.ts:133-181 | A name made of words occurs in another only as a run of its words, when its first word ends and its last word begins no other word |
| PushConfig.NamesOccur | infrastructure/zk/src/config.ts:133-181 | One of the names that `pushConfig` writes occurs in another only at its end, and then it is written first |
| PushConfig.WebNames | infrastructure/zk/src/config.ts:133-137 | The first four names, spelled out |
| PushConfig.ApiNames | infrastructure/zk/src/config.ts:139-143 | The next four |
| PushConfig.PrometheusNames | infrastructure/zk/src/config.ts:145-153 | The next four |
| PushConfig.DatabaseNames | infrastructure/zk/src/config.ts:156-175 | The four names that are left out inside Docker |
| PushConfig.StatePathName | infrastructure/zk/src/config.ts:179 | The path of the state keeper's database |
| PushConfig.TreePathName | infrastructure/zk/src/config.ts:180 | The path of the Merkle tree |
| PushConfig.BackupPathName | infrastructure/zk/src/config.ts:181 | The path of its backup |
| PushConfig.NamesSuffixOnly | infrastructure/zk/src/config.ts:133-181 | The whole list of names meets the condition on names of `EnvFile.RunOfModifies` |
| PushConfig.NamesContainedFirst | infrastructure/zk/src/config.ts:133-181 | The order of the calls, with or without the database variables, meets its condition on the order |
| PushConfig.PushedFresh | infrastructure/zk/src/config.ts:128-181 | From a file that does not exist, the calls leave exactly their own variables, each with its own value |
| PushConfig.PushedAgain | infrastructure/zk/src/config.ts:128-181 | Calling again with other values replaces every value |
| PushConfig.WrongOrder | infrastructure/zk/src/config.ts:157-163 | In the other order the longer name takes the shorter one's value, and the shorter one is never set |
| Publisher.BatchLengthIsTotal | contracts/system-contracts/scripts/utils.ts:122-141 | The length a batch is sent with is the sum that batching counted |
| Publisher.BatchesFlatten | contracts/system-contracts/scripts/deploy-preimages.ts:255-273 | The batches one after the other are the dependencies in order |
| Publisher.BatchesWithinLimit | contracts/system-contracts/scripts/deploy-preimages.ts:255-273 | No batch is empty, and only a single dependency over the limit makes a batch over the limit |
| Publisher.AdjacentBatchesExceed | contracts/system-contracts/scripts/deploy-preimages.ts:255-273 | Any two adjacent batches together exceed the limit |
| Publisher.BatchesAreFewest | contracts/system-contracts/scripts/deploy-preimages.ts:255-273 | No way of cutting the list into consecutive groups within the limit has fewer groups |
| Publisher.UnmarkedCounts | contracts/system-contracts/scripts/utils.ts:174-200 | Filtering keeps every unmarked bytecode as often as it occurs and no marked one |
| Publisher.RunPublishesUnmarked | contracts/system-contracts/scripts/deploy-preimages.ts:210-273 | Over filter, prepare and publish: the transactions carry exactly the unmarked bytecodes in order, none is empty or over the limit, nonces are consecutive |
| PublisherFacts.SentCounts | contracts/system-contracts/scripts/deploy-preimages.ts:211-221 | A run sends a marked bytecode never, and any other one as often as the contracts need it: as something they can create, for Solidity ones, and as their own |
| PublisherFacts.SentInOrder | contracts/system-contracts/scripts/deploy-preimages.ts:210-273 | What is sent are the bytecodes that the contracts need and the chain has not marked, contract by contract, the own bytecode last, at most 125000 bytes in a transaction |
| PublisherFacts.PublishableIff | contracts/system-contracts/scripts/deploy-preimages.ts:232-244 | A run is possible if and only if no contract needs more than 125000 bytes that are not marked |
| PublisherFacts.RecordedInOrder | contracts/system-contracts/scripts/deploy-preimages.ts:223-230 | The contracts recorded are those whose own bytecode has another hash than the chain reports, in order, with name, hash and address |
| Publisher.FilterPublishedFactoryDeps | contracts/system-contracts/scripts/utils.ts:174-200 | The loop keeps the unmarked bytecodes in order and counts their bytes |
| Publisher.ZkSyncDeployer.PublishFactoryDeps | contracts/system-contracts/scripts/deploy-preimages.ts:95-104 | Sends one transaction with the current nonce and advances it, or does nothing for an empty list |
| Publisher.ZkSyncDeployer.PublishDependencies | contracts/system-contracts/scripts/deploy-preimages.ts:255-273 | The greedy loop sends the batches in order with consecutive nonces |
| Publisher.ZkSyncDeployer.PrepareContractsForPublishing | contracts/system-contracts/scripts/deploy-preimages.ts:210-253 | Prepares the unmarked bytecodes of every contract, fails exactly when one contract's exceed the limit, and records the contracts whose own bytecode is outdated |
| Publisher.ZkSyncDeployer.PublishSystemContracts | contracts/system-contracts/scripts/deploy-preimages.ts:343-346 | Nothing is sent unless all contracts can be published; then exactly the unmarked bytecodes are |
| SqlText.DedentExact | infrastructure/zk/src/format_sql.ts:26-32 | Dedenting removes white space only if and only if no line is blank or no line has a text longer than one character |
| SqlText.UnescapeInverts | infrastructure/zk/src/format_sql.ts:49-52 | Removing backslashes inverts every way of escaping a text, line feeds included |
| SqlText.BlockReads | infrastructure/zk/src/format_sql.ts:37-74 | An embedded query reads back as the query, indented and between line feeds, with its own indentation and comma |
| SqlText.LinesConcat | infrastructure/zk/src/format_sql.ts:56-65 | Splitting a joined text splits its parts |
| SqlFormat.FormatFile | infrastructure/zk/src/format_sql.ts:91-157 | The loop over the five variables computes the line-by-line specification; with `check` the file is untouched, and the result tells whether it was formatted already |
| SqlFormat.SegmentsPartition | infrastructure/zk/src/format_sql.ts:99-147 | The segments of a file and a query still open at its end are its lines, in order, each once |
| SqlFormat.QueryStartsAtOnce | infrastructure/zk/src/format_sql.ts:76-89 | A one-line query has no indentation of its own, and formatting it fails exactly when there is no raw string and the line ends in white space |
| SqlFormat.OneLineRendered | infrastructure/zk/src/format_sql.ts:76-89 | A one-line query becomes its first part, the embedded query four further in, and its last part |
| SqlFormat.QueryRendered | infrastructure/zk/src/format_sql.ts:138-143 | A complete query becomes the embedded query at its own indentation, with its comma |
| SqlFormatCorrect.TraceFormats | infrastructure/zk/src/format_sql.ts:99-147 | For every file and from every state of the machine, the output is the rendering of the pieces in order, and it fails exactly when one of them does not fit |
| SqlFormatCorrect.FileRendered | infrastructure/zk/src/format_sql.ts:91-157 | For every file the new one is the joined rendering of its pieces |
| SqlFormatCorrect.PiecesAreLines | infrastructure/zk/src/format_sql.ts:99-147 | Every piece is made of the lines at its places |
| SqlFormatCorrect.LinesConserved | infrastructure/zk/src/format_sql.ts:91-157 | For every file: its lines are the lines of its pieces, in order and each once, if and only if no call arrives inside a query and the file does not end inside one |
| SqlFormatCorrect.UndisturbedPlaces | infrastructure/zk/src/format_sql.ts:99-147 | Without calls inside queries the pieces are the segments, and of the lines only those of a query open at the end are missing |
| SqlFormatCorrect.CallInsideLoses | infrastructure/zk/src/format_sql.ts:105-132 | At the first call inside a query, exactly the lines of that query so far are written nowhere, of all lines before it |
| SqlFormatCorrect.OneLineOvertakes | infrastructure/zk/src/format_sql.ts:100-103 | At a first one-line call inside a query, the call is written before the query |
| SqlFormatCorrect.SegmentsRendered | infrastructure/zk/src/format_sql.ts:91-157 | Without calls inside queries the new file is the rendering of the segments |
| SqlFormatCorrect.NoCallsNoChange | infrastructure/zk/src/format_sql.ts:91-157 | A file without calls comes back unchanged |
| SqlFormatTwice.BlockStable | infrastructure/zk/src/format_sql.ts:67-74 | An embedded query is written the same way again if and only if formatting it from its new place gives it again (it settles), for every formatter and query |
| SqlFormatTwice.RejectedNeverSettles | infrastructure/zk/src/format_sql.ts:5-35 | A query that the formatter rejects never settles: each of its lines is cut to its last character |
| SqlFormatTwice.BlindSettles | infrastructure/zk/src/format_sql.ts:5-35 | With a formatter that is idempotent, ignores layout and writes no blank lines, every query settles and keeps its meaning |
| SqlFormatTwice.FormatIdempotent | infrastructure/zk/src/format_sql.ts:37-157 | For every formatter and every file without calls inside queries whose queries settle and can be found again: formatting is idempotent, one-line queries that became blocks and an open query included |
| SqlFormatTwice.BlindIdempotent | infrastructure/zk/src/format_sql.ts:37-157 | With such a formatter it is enough that the queries can be found again |
| SqlOneLine.RegularSplit | infrastructure/zk/src/format_sql.ts:76-84 | A regular string after a call, quotes escaped, is cut out as a whole if and only if the line has no call of something that starts with `r`, no quote before the call, and a closing quote that follows no backslash and, for the empty string, ends the line |
| SqlOneLine.BackslashSplit | infrastructure/zk/src/format_sql.ts:76-84 | Of a string that ends in an escaped backslash only the quote and one character are taken out |
| SqlOneLine.RawSplit | infrastructure/zk/src/format_sql.ts:76-84 | A raw string after a call is cut out as a whole if and only if no start of a raw string precedes it and no end of one lies inside it |
| SqlOneLine.RegularIsWellPlaced | infrastructure/zk/src/format_sql.ts:76-89 | Lines whose string is cut out as a whole meet the condition of idempotence when nothing after the query is a call |
| SqlRegular.LiteralIsOneQuery | infrastructure/zk/src/format_sql.ts:128-143 | A regular literal on any number of lines is collected as one query if and only if its last line is the first that looks like an end; an opening quote on a line of its own does not |
| SqlRegular.LiteralExtracted | infrastructure/zk/src/format_sql.ts:37-54 | The query taken out of it is its text without quotes, comma and backslashes |
| SqlCalls.OneLineIff | infrastructure/zk/src/format_sql.ts:100 | A line is a one-line call if and only if a call has a quote or an `r` right behind it |
| SqlCalls.OpensIff | infrastructure/zk/src/format_sql.ts:105-114 | A line opens a query if and only if it ends in one of the two calls |
| SqlCalls.CallWaits | infrastructure/zk/src/format_sql.ts:105-109 | After `sqlx::query!(` at the end of a line the query begins on the next line |
| SqlCalls.CallAsWaits | infrastructure/zk/src/format_sql.ts:110-114 | After `sqlx::query_as!(` one line comes before the query |
| SqlCalls.RawIsOneQuery | infrastructure/zk/src/format_sql.ts:116-143 | A raw string is collected as one query if and only if its last line is the first that ends in `"#`, with or without a comma |
| SqlCalls.CallFormatted | infrastructure/zk/src/format_sql.ts:91-157 | In every file, a call with its raw string on the following lines comes out with the formatted text in its place, at its own indentation and with its own comma; what stands before is copied, what follows is formatted by itself |
| SqlCalls.RegularLineFormatted | infrastructure/zk/src/format_sql.ts:76-89 | A regular string behind a call on one line is formatted without its backslashes, four columns further in |
| SqlCalls.RawLineFormatted | infrastructure/zk/src/format_sql.ts:76-89 | So is a raw string, as it is |
| SqlOneLine.EmptyQuerySplit | infrastructure/zk/src/format_sql.ts:82 | The empty query is cut one character too late |
| HexLiterals.PaddedValue | contracts/tools/src/main.rs:169-175 | A padded limb has 16 digits and its own value |
| HexLiterals.LimbsPrinted | contracts/tools/src/main.rs:169-175 | The reversed padded limbs are the numeral of the sum of limb i times 2^(64 i), for any number of limbs |
| HexLiterals.FourLimbsFit | contracts/tools/src/main.rs:169-175 | Four limbs are a word |
| HexLiterals.TrimZerosIsShortest | contracts/tools/src/main.rs:156-162 | Trimming zeros leaves the shortest numeral, and nothing of zero |
| GeneratedCode.MstoreLine | contracts/tools/src/main.rs:152-154 | Running a printed `mstore` line stores the number at the slot, exactly when the digits are a literal |
| GeneratedCode.ConstDigits | contracts/tools/src/main.rs:156-167 | The digits of a constant are a number literal if and only if the value is not zero, a word, and not of 38 to 40 digits |
| GeneratedCode.ThirtyEightDigits | contracts/tools/src/main.rs:156-167 | 2^148, of 38 digits, is a word that is not declarable |
| GeneratedCode.RunIsExecute | contracts/tools/src/main.rs:152-167 | Running any printed list of lines has the effect of the lines |
| VerifierKey.NamesInjective | contracts/tools/src/main.rs:37-83 | Slot names are injective in the index and disjoint across families and axes |
| VerifierKey.CommitmentsRendered | contracts/tools/src/main.rs:177-302 | The generated commitments are the printed stores of every coordinate |
| VerifierKey.CommitmentsStored | contracts/tools/src/main.rs:263-302 | Running the generated text succeeds exactly when every coordinate is a word, and leaves every slot with its own coordinate's limb sum and every other slot as it was |
| VerifierConstants.ConstantNamesInjective | contracts/tools/src/main.rs:84-94 | No two generated constants share a name |
| VerifierConstants.ConstantsDeclared | contracts/tools/src/main.rs:195-261 | The generated constants compile exactly when every number is declarable; each has its own value, G2 parts in the order c1, c0, and there are no others |
| VerifierConstants.GenerateResidueG2Elements | contracts/tools/src/main.rs:304-322 | The text appended step by step declares exactly these constants |
| VerifierConstants.ZeroConstantFails | contracts/tools/src/main.rs:156-167 | A zero constant does not compile |
| VerifierConstants.LongConstantFails | contracts/tools/src/main.rs:156-167 | A constant 2^148 does not compile |
| VerifierSlots.ListsStored | contracts/tools/src/main.rs:38-66 | Each list of the key is stored under its own name, index and axis, spelled out |
| VerifierSlots.SinglesStored | contracts/tools/src/main.rs:67-82 | So are the two single commitments |
| VerifierSlots.ConstantsBound | contracts/tools/src/main.rs:83-94 | Non-residues and G2 points are constants under their own names and indices, the imaginary parts as the first of each pair |
| Diamond.AddKeepsLinks | contracts/l1-contracts/contracts/state-transition/libraries/Diamond.sol:205-224 | Appending a selector keeps the two tables pointing at each other |
| Diamond.RemoveKeepsLinks | contracts/l1-contracts/contracts/state-transition/libraries/Diamond.sol:228-254 | Swap-and-pop keeps the tables linked and removes exactly one route |
| Diamond.RemoveFacetKeepsLinks | contracts/l1-contracts/contracts/state-transition/libraries/Diamond.sol:257-274 | Swap-and-pop on the facet list keeps facets and positions linked |
| Diamond.DiamondStorage.SaveFacetIfNew | contracts/l1-contracts/contracts/state-transition/libraries/Diamond.sol:189-198 | A facet without selectors is appended with its position, any other is left alone, and nothing else changes |
| Diamond.DiamondStorage.AddOneFunction | contracts/l1-contracts/contracts/state-transition/libraries/Diamond.sol:205-224 | Adds one route, exactly when its freezability matches the facet's |
| Diamond.DiamondStorage.RemoveOneFunction | contracts/l1-contracts/contracts/state-transition/libraries/Diamond.sol:228-254 | Removes one route and keeps the invariant, the facet list included |
| Diamond.DiamondStorage.RemoveFacet | contracts/l1-contracts/contracts/state-transition/libraries/Diamond.sol:257-274 | Swap-and-pop takes exactly this facet out of the list, and no other facet loses its selectors |
| Diamond.DiamondStorage.AddFunctions | contracts/l1-contracts/contracts/state-transition/libraries/Diamond.sol:126-145 | Refines adding the routes one by one, failure included |
| Diamond.DiamondStorage.ReplaceFunctions | contracts/l1-contracts/contracts/state-transition/libraries/Diamond.sol:149-168 | Refines replacing the routes one by one, failure included |
| Diamond.DiamondStorage.RemoveFunctions | contracts/l1-contracts/contracts/state-transition/libraries/Diamond.sol:172-185 | Refines removing the routes one by one, failure included |
| Diamond.DiamondStorage.DiamondCut | contracts/l1-contracts/contracts/state-transition/libraries/Diamond.sol:96-122 | Refines the cuts of the specification: succeeds exactly when they apply, and reverts to the old state otherwise |
| CutSemantics.AddExact | contracts/l1-contracts/contracts/state-transition/libraries/Diamond.sol:126-145 | When one cut of additions applies and what it leaves |
| CutSemantics.ReplaceExact | contracts/l1-contracts/contracts/state-transition/libraries/Diamond.sol:149-168 | When one cut of replacements applies and what it leaves: every route of the facet but that of the first selector has to agree in freezability |
| CutSemantics.RemoveExact | contracts/l1-contracts/contracts/state-transition/libraries/Diamond.sol:172-185 | When one cut of removals applies and what it leaves |
| FacetCuts.DeployedFacetCutsForRemove | contracts/l1-contracts/src.ts/diamondCut.ts:103-122 | The loop gives one removal for each reported facet with one of the names |
| FacetCuts.FacetCutsForUpgrade | contracts/l1-contracts/src.ts/diamondCut.ts:124-140 | Removals first, by the given names or the default ones, then the additions |
| FacetCuts.StorageReports | contracts/l1-contracts/src.ts/diamondCut.ts:104-109 | What a linked storage reports covers exactly its routes, facet by facet |
| FacetCuts.UpgradeApplies | contracts/l1-contracts/src.ts/diamondCut.ts:61-140 | The upgrade applies to the diamond it was read from if and only if the new facets have code and selectors that are distinct, unbound in the facets that stay and of matching freezability; the result is the kept routes and the new ones |
| FacetCuts.KeptUntouched | contracts/l1-contracts/src.ts/diamondCut.ts:124-140 | Routes of kept facets are not overwritten |
| FacetCuts.NewSelectorsRouted | contracts/l1-contracts/src.ts/diamondCut.ts:124-140 | Every new selector leads to its own facet |
| FacetCuts.NewFacetRouted | contracts/l1-contracts/src.ts/diamondCut.ts:61-101 | Every function of a new facet but `getName` leads to it, and only those of the mailbox and the executor can be frozen |
| FacetUpgrade.RemovedIff | contracts/l1-contracts/src.ts/diamondCut.ts:133-136 | By default exactly the two facets that always go and the old versions of the new facets are replaced |
| FacetUpgrade.SelectorsExact | contracts/l1-contracts/src.ts/diamondCut.ts:61-67 | The selectors of a new facet are those of its functions but `getName`, and no others |
| FacetUpgrade.UpgradeExact | contracts/l1-contracts/src.ts/diamondCut.ts:61-140 | For every diamond: the upgrade applies if and only if it is compatible, in terms of names, signatures and routes, and then exactly the routes of replaced facets go and those of the new facets come |
| FacetUpgrade.NewVersionsFit | contracts/l1-contracts/src.ts/diamondCut.ts:124-140 | New versions at new addresses, with functions that the old ones had, always replace them |
| FacetUpgrade.UpgradeDiamond | contracts/l1-contracts/src.ts/diamondCut.ts:103-140 | The same on the storage tables themselves, from reading the facets to the cut |
| CutComparison.DigitsInjective | contracts/l1-contracts/scripts/upgrade-consistency-checker.ts:197-201 | Concatenating selectors of fixed width is injective |
| CutComparison.SameSelectors | contracts/l1-contracts/scripts/upgrade-consistency-checker.ts:197-203 | Equal sorted concatenations are equal multisets of selectors, and conversely |
| CutComparison.SortedUnique | contracts/l1-contracts/scripts/upgrade-consistency-checker.ts:181-183 | Permutations without ties sort to the same list |
| CutComparison.CompareFacetCuts | contracts/l1-contracts/scripts/upgrade-consistency-checker.ts:181-212 | The loop passes exactly when the sorted lists agree position by position |
| CutComparison.PassingMeansSame | contracts/l1-contracts/scripts/upgrade-consistency-checker.ts:168-212 | If the comparison passes, the used cuts are a permutation of the expected ones up to the order of selectors |
| CutComparison.SameMeansPassing | contracts/l1-contracts/scripts/upgrade-consistency-checker.ts:168-212 | Conversely any such permutation passes when facets are distinct |
| CutComparison.ComparisonExact | contracts/l1-contracts/scripts/upgrade-consistency-checker.ts:168-212 | For distinct facets it passes if and only if the two lists mean the same up to order |
| CutComparison.SortStable | contracts/l1-contracts/scripts/upgrade-consistency-checker.ts:181-183 | Sorting by facet keeps the order of the cuts of each facet |
| CutComparison.PassesExactly | contracts/l1-contracts/scripts/upgrade-consistency-checker.ts:168-212 | For all lists, facets repeated or not: the comparison passes if and only if for every facet both have cuts of the same meaning in the same order |
| CutComparison.RepeatedFacetFails | contracts/l1-contracts/scripts/upgrade-consistency-checker.ts:182-203 | In every list, exchanging two cuts of one facet that differ in meaning is reported, although the lists mean the same up to order |

## Left out

- Deployment, governance, migration and verification scripts, hardhat configurations and server wrappers: input and output around contracts that are not part of this model.
- `PublishReporter`, promises and `await`: calls are modelled as sequential.
- keccak, the ABI coder, dotenv, TOML and the SQL formatter, with the keywords that are put into lower case after it, are parameters; deep-extend is a right-biased merge of plain tables, without its special cases for dates, buffers and regular expressions.
- `mergeInitToEnv`, `reload` and `removeFromInit`: map merges around the dotenv parser.
- The publishing of the default account and the bootloader: the same filter and one transaction each.
- Semver packing, address aliasing, bytecode-hash tags and token chunking: short arithmetic that would only add easy members.
- The layout of the emitted Yul: the emitted code is modelled as syntax trees, not as text, and the compiler's rules beyond distinct function names are not checked.
- Panics of the verifier generator on malformed keys, the Handlebars template around the generated text, and the memory addresses behind slot names: slots are identified by name.
- `formatSqlxQueries`: the list of files; each file is formatted by itself.
- Capital letters in addresses and hashes: texts are compared as they are, in one spelling.
- AbiEncoding.ValidateExact: memory is a total function of addresses, without the cost of expanding it.
- TupleCheck.AcceptsIffCanonical: for a head that ends below 2^256, since memory cannot hold one that wraps.
- TxLayout.GetTransactionUtils: the result is a list of syntax trees, not the emitted text.
- TxLayoutCorrect.ValidatorRuns: as TupleCheck.AcceptsIffCanonical.
- TxLayoutCorrect.ValidatorReturns: as TupleCheck.AcceptsIffCanonical.
- TxLayoutCorrect.ValidatorExact: as TupleCheck.AcceptsIffCanonical; needs emitted functions with distinct names, as Yul does.
- TxLayoutCorrect.FinalPointer: as TupleCheck.AcceptsIffCanonical.
- StorageReader.Reader.GetStorageAt: the cache is keyed by the value of a slot, the code's by the identity of the number object, so that the code may ask the node more often; one contract address is read in a run, since the key omits it.
- StorageReader.Reader.ReadDynamicBytes: lengths are exact, where the code's are JavaScript numbers.
- StorageReader.Reader.ReadPrimitive: the failure of UTF-8 decoding on invalid bytes; texts are their bytes.
- StorageReader.Reader.ReadStruct: struct types that contain themselves through arrays are excluded by the ranks of the table, since reading them ends only for some storages; the same holds for ReadArray, ReadVariable and the four methods that read parts.
- StorageLayout.ReadsBack: the layout of the values of a mapping is not stated, since a mapping is not read as a whole.
- StorageReader.Reader.ReadPartOfMap: the encoding and hashing of keys is a parameter.
- StorageFacts.PartIsProjection: says nothing about indices past the end of an array, where the code reads whatever lies there, nor about parts of mappings, which have no whole and are covered by StorageLayout.PartReadsBack.
- ConfigLoader.LoadedRepresents: leaf by leaf only for sources whose shapes agree; ConfigTree.OverridesOnlyIfAgree shows that no merge of others overrides leaf by leaf.
- ConfigLoader.CompiledVariables: as ConfigLoader.LoadedRepresents, and for leaves whose names do not collide.
- ConfigVariables.CollectVariables: names are upper-cased letter by letter in the Latin alphabet, and scalars are texts.
- ConfigLoader.LoadsIffAcyclic: an import that does not exist counts as empty, as in the code; a missing or unparsable file that is loaded directly counts as not loadable.
- EnvFile.Env.Modify: variable names are taken as ordinary characters in the regular expression, and values hold no `$` patterns.
- EnvFile.Env.ReplaceInFile: only the pattern of a name up to the end of its line, the one that is used.
- EnvFile.RunOfModifies: for names of which one occurs in another at most at its end, and one-line values that contain no name.
- PushConfig.PushedFresh: the values are parameters that hold none of the names, no line end and no trailing space; the variables of the second file and the reloading of the environment are left out.
- Publisher.ZkSyncDeployer.PublishFactoryDeps: a transaction that fails on the chain is not modelled.
- SqlFormatTwice.FormatIdempotent: one way; for files without calls inside queries, formatted queries without calls or ends of raw strings, and one-line queries that follow their call at once. For one query BlockStable has both directions.
- GeneratedCode.ConstDigits: the checksum by which Solidity accepts some address literals is not computed, since an address is no number either.
- Diamond.DiamondStorage.AddOneFunction: positions are unbounded, where the code reverts beyond 16 bits.
- Diamond.DiamondStorage.DiamondCut: positions are unbounded, where the code reverts beyond 16 bits, and the initialisation call after the cuts is left out.
- FacetCuts.UpgradeApplies: the name a facet reports is a function of its address.
- CutComparison.CompareFacetCuts: `localeCompare` is any total order, and `sort` a stable insertion sort.
