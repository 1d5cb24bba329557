# SKIRT core: column text files, simulation-item discovery, medium-system state

This project models three pieces of the SKIRT radiative-transfer code in Dafny.

- **The column text-file reader** (`TextInFile`). It reads the structured header lines
  `# column N : description (unit)`, matches the columns the program declares with `addColumn`
  to the file columns, and validates their units: dimensionless, "specific" (per wavelength or
  per frequency) or regular quantities. It then reads data rows, converted to internal units,
  and non-leaf lines `! nx ny nz`. It also returns all rows, or all columns as the transpose.
  The file is the text still to be read, a `seq<char>`. The reader is a class whose methods
  consume that text and update the column records and the program column index.
- **The discovery and setup logic of simulation items** (`SimulationItem`). It covers the
  run-once `setup()` walk with its `setupSelfBefore`/`setupSelfAfter` hooks, the
  ancestor-then-children `find()`, the ancestor-chain `interface()` and `interfaceCandidates()`,
  and `typeAndName()`. The item tree is an arena of numbered items whose parent links and child lists agree. The
  setup-started flags and the record of hooks that ran are fields of a `Hierarchy` class. A hook
  may itself ask for the setup of other items, as `find(true)` inside a hook does.
- **The medium system's per-cell state store and radiation-field tables** (`MediumSystem`).
  This part covers:
  - the flattened `state(m, h)` indexing;
  - the material-type predicates;
  - clearing, storing and communicating the three radiation-field tables, and reading the
    radiation field;
  - the normalised scattering weights;
  - the cumulative optical-depth walks of `setOpticalDepths` and `setInteractionPoint`.

  The tables are arrays in a class. Opacities and the segments of a path are inputs.

`common.dfy` holds the `Option`, `Result` (with `Fatal` for SKIRT's fatal errors) and `Outcome`
datatypes.

## Model

| member | source | states |
|---|---|---|
| TextSyntax.GetLine | SKIRT/core/TextInFile.cpp:235 | getline yields the text before the first line feed and the text after it; the line never holds a line feed |
| TextSyntax.GetLineOf | SKIRT/core/TextInFile.cpp:235 | a line followed by a line feed is read back exactly, whatever follows |
| TextSyntax.SplitInfoLine | SKIRT/core/TextInFile.cpp:63-66 | a line accepted by the header syntax is exactly the assembly of its well-formed pieces (keyword, number, description, unit with their blanks) |
| TextSyntax.SplitAssembled | SKIRT/core/TextInFile.cpp:63-66 | every well-formed header line is accepted and cut back into the same pieces, so the syntax is exactly the set of well-formed assemblies |
| TextSyntax.SplitUnitAssembled | SKIRT/core/TextInFile.cpp:63-64 | the unit part `( unit )` written from its pieces reads back as the same pieces |
| TextSyntax.SplitLabelAssembled | SKIRT/core/TextInFile.cpp:63-64 | the part after the colon, description and unit, written from its pieces reads back as the same pieces |
| TextSyntax.DigitsValue | SKIRT/core/TextInFile.cpp:68 | the value of a string of k decimal digits is below 10^k |
| TextSyntax.DigitsInRange | SKIRT/core/TextInFile.cpp:68 | a column number of at most 19 digits fits a 64-bit unsigned long, so only a longer one can overflow std::stoul |
| TextSyntax.NatTextRoundTrip | SKIRT/core/TextInFile.cpp:68 | the column number written in decimal is read back as the same number |
| TextSyntax.ExtractInt | SKIRT/core/TextInFile.cpp:290 | a successful int extraction yields a value in the 32-bit int range; a value outside it fails the stream |
| TextSyntax.ExtractIntText | SKIRT/core/TextInFile.cpp:290 | extracting an int after any whitespace reads back any 32-bit value written in decimal and stops at the first non-digit |
| TextSyntax.ExtractInts | SKIRT/core/TextInFile.cpp:290 | k successive extractions that succeed yield exactly k values |
| TextSyntax.ExtractIntsInRange | SKIRT/core/TextInFile.cpp:290 | every value that successive extractions read lies in the 32-bit int range |
| TextSyntax.ExtractIntsText | SKIRT/core/TextInFile.cpp:290 | successive int extractions read back every value written with a separating space, in order, and stop in front of the tail |
| TextSyntax.ExtractSubdivision | SKIRT/core/TextInFile.cpp:288-292 | the three subdivision counts of a non-leaf line, when read, each lie in the 32-bit int range |
| TextSyntax.ExtractSubdivisionText | SKIRT/core/TextInFile.cpp:288-292 | the three subdivision counts written after `!` are read back as the same counts |
| TextSyntax.ExtractDouble | SKIRT/core/TextInFile.cpp:250-252 | a double extraction that succeeds always consumes text |
| TextInFile.NextInfo | SKIRT/core/TextInFile.cpp:42-74 | the info-line scan leaves a suffix of its input; when no info line is found it stops at the end or at a character that is neither `#` nor whitespace |
| TextInFile.GetNextInfoLine | SKIRT/core/TextInFile.cpp:42-74 | the loop over `#` lines returns the info line and the remaining text that NextInfo specifies |
| TextInFile.NextInfoOfHeaderLine | SKIRT/core/TextInFile.cpp:58-71 | a structured header line is recognised with its column number, description and unit |
| TextInFile.NextInfoSkipsComment | SKIRT/core/TextInFile.cpp:58-73 | a `#` line that does not follow the header syntax is consumed and skipped |
| TextInFile.HeaderFrom | SKIRT/core/TextInFile.cpp:128-142 | the header loop only adds records that carry no program information yet |
| TextInFile.ReadHeader | SKIRT/core/TextInFile.cpp:128-142 | the header loop returns the records and the remaining text that HeaderFrom specifies, or its fatal error |
| TextInFile.HeaderFromStep | SKIRT/core/TextInFile.cpp:131-141 | a header line carrying the next expected number appends its record and the loop goes on |
| TextInFile.HeaderOfLines | SKIRT/core/TextInFile.cpp:128-142 | header lines numbered 1, 2, 3, … produce exactly one record each, in order, and the header ends where the body starts |
| TextInFile.HeaderRejectsIndex | SKIRT/core/TextInFile.cpp:135-136 | a header line out of sequence, with a number that fits an unsigned long, is a fatal error naming the expected column number |
| TextInFile.HeaderRejectsOutOfRange | SKIRT/core/TextInFile.cpp:68 | a header line whose column number exceeds ULONG_MAX stops the header read with the out-of-range exception of std::stoul, whatever the records read so far |
| TextInFile.FirstSupporting | SKIRT/core/TextInFile.cpp:88-93 | the lookup returns the first list position, in order, whose quantity supports the unit |
| TextInFile.WaveExponent | SKIRT/core/TextInFile.cpp:79-95 | the exponent is 0, -1, -2 or the sentinel 99, and it is 99 exactly when no specific quantity supports the unit |
| TextInFile.WaveExponentFirst | SKIRT/core/TextInFile.cpp:79-95 | the exponent is 99 exactly when no specific quantity supports the unit, and otherwise the exponent of the first one that does |
| TextInFile.WaveExponentFamilies | SKIRT/core/TextInFile.cpp:82-86 | the exponent is 0, -1 or -2 exactly when the first supporting quantity is of the wavelength, neutral or frequency family |
| TextInFile.WaveExponentForSpecificQuantity | SKIRT/core/TextInFile.cpp:79-95 | the counting loop returns the exponent of the first supporting quantity, or 99 |
| TextInFile.WaveIndex | SKIRT/core/TextInFile.cpp:99-108 | the index of the first column described as "wavelength", or 99 when there is none |
| TextInFile.WaveIndexForSpecificQuantity | SKIRT/core/TextInFile.cpp:99-108 | the counting loop returns the first "wavelength" column, or 99 |
| TextInFile.WaveIndexSentinelCollision | SKIRT/core/TextInFile.cpp:101-107 | a first wavelength column at index 99 cannot be told apart from "no wavelength column" |
| TextInFile.Declare | SKIRT/core/TextInFile.cpp:170-222 | addColumn fails with NoColumnInfo exactly when a header exists and every header column is taken, and then changes nothing; otherwise it configures the record of the next program column and advances the index by one |
| TextInFile.DeclareKeepsBookkeeping | SKIRT/core/TextInFile.cpp:173-186 | after a successful addColumn the number of records still matches the header, or grows by one per call without header |
| TextInFile.DeclareDimensionless | SKIRT/core/TextInFile.cpp:193-198 | a dimensionless column is accepted exactly when its unit is empty or "1", and then stores "1" |
| TextInFile.DeclareSpecific | SKIRT/core/TextInFile.cpp:199-210 | a specific column fails with InvalidSpecificUnits exactly when no specific quantity supports its unit; it fails with NoWavelengthColumn exactly when its unit is per frequency or neutral (nonzero exponent) and no column is described as "wavelength"; it is accepted in every other case, with exponent 0, -1 or -2 |
| TextInFile.DeclareSpecificWavelength | SKIRT/core/TextInFile.cpp:206-210 | an accepted specific column with a nonzero exponent points at the first column described "wavelength" |
| TextInFile.DeclareRegular | SKIRT/core/TextInFile.cpp:211-216 | a regular column is accepted exactly when the unit system supports its unit, and then records the conversion factor |
| TextInFile.Configure | SKIRT/core/TextInFile.cpp:188-220 | the record keeps the title, description and quantity; a failure is one of the four unit errors naming the column; an accepted specific column with a nonzero exponent points at a column described "wavelength" |
| TextInFile.ConfigureColumn | SKIRT/core/TextInFile.cpp:188-220 | the branch code of addColumn computes the record and outcome that Configure specifies |
| TextInFile.DeclareColumn | SKIRT/core/TextInFile.cpp:170-222 | the imperative addColumn yields the records, index and outcome that Declare specifies |
| TextInFile.NextDataLine | SKIRT/core/TextInFile.cpp:231-237 | the line readRow converts is never empty, blank or a comment, and never holds a line feed |
| TextInFile.DataLinesOfText | SKIRT/core/TextInFile.cpp:231-237 | successive readRow calls convert exactly the lines that are not skipped, in order |
| TextInFile.CarriageReturnLineIsData | SKIRT/core/TextInFile.cpp:236-237 | a line holding only a carriage return is not skipped, and reading it fails with a non-numeric value |
| TextInFile.ScanFrom | SKIRT/core/TextInFile.cpp:244-253 | a successful line scan yields exactly ncols values |
| TextInFile.Converted | SKIRT/core/TextInFile.cpp:255-256 | storing the converted values keeps the row length and leaves the columns not yet reached at their previous values |
| TextInFile.ConvertedPlain | SKIRT/core/TextInFile.cpp:255-256 | a column without a wavelength exponent stores its value times the conversion factor |
| TextInFile.ConvertedSpecific | SKIRT/core/TextInFile.cpp:255-256 | a specific column converts with the wavelength value of the same row, when that column comes before it |
| TextInFile.ConvertedPrefix | SKIRT/core/TextInFile.cpp:244-257 | values already stored for the row are not changed by later columns |
| TextInFile.ReadValues | SKIRT/core/TextInFile.cpp:244-257 | the extraction loop fails with the scan's error, or stores the converted scan values in the row |
| TextInFile.AllRows | SKIRT/core/TextInFile.cpp:313-326 | every row of a successful readAllRows has one value per column |
| TextInFile.Transpose | SKIRT/core/TextInFile.cpp:337-343 | the result has ncols columns of one entry per row, with `columns[c][r] == rows[r][c]` |
| TextInFile.NonLeafOfLine | SKIRT/core/TextInFile.cpp:283-295 | a `!` line with three counts is read back as those counts and reading continues after its line feed |
| TextInFile.NonLeafAtBang | SKIRT/core/TextInFile.cpp:283-295 | at `!` the rest of the line is read; malformed counts are a fatal error |
| TextInFile.NonLeafSkipsComment | SKIRT/core/TextInFile.cpp:276-280 | a comment line before a non-leaf line is consumed and skipped |
| TextInFile.NonLeaf | SKIRT/core/TextInFile.cpp:268-309 | readNonLeaf leaves a suffix of its input; when it answers false that suffix is empty or starts with a character that is neither `#`, `!` nor whitespace, left unconsumed |
| TextInFile.TextInFile.AddColumn | SKIRT/core/TextInFile.cpp:170-222 | the reader's records, index and outcome become those of Declare |
| TextInFile.TextInFile.ReadRow | SKIRT/core/TextInFile.cpp:226-264 | no declared column is fatal; at the end of input the result is false; otherwise the next data line is consumed and the row holds the converted values, in the caller's array when its size fits and in a new array of zeros otherwise, or the scan's error |
| TextInFile.TextInFile.ReadAllRows | SKIRT/core/TextInFile.cpp:313-326 | the result is exactly the rows of every data line up to the end, or the first fatal error |
| TextInFile.TextInFile.ReadAllColumns | SKIRT/core/TextInFile.cpp:330-344 | the result is the transpose of what readAllRows yields, or its error |
| TextInFile.TextInFile.ReadNonLeaf | SKIRT/core/TextInFile.cpp:268-309 | the peek/get loop returns the answer and leaves the remaining text that NonLeaf specifies |
| TextInFile.Open | SKIRT/core/TextInFile.cpp:113-143 | opening reads the header into the records, sets the number of file columns to their number and starts with no program column, or fails with the header's error |
| SimulationItem.SetupRun | SKIRT/core/SimulationItem.cpp:11-23 | setup only ever sets flags, and the item's own flag is set afterwards |
| SimulationItem.SetupRunCovers | SKIRT/core/SimulationItem.cpp:11-23 | a setup call runs both hooks of each item it starts exactly once, and no hook of any other item |
| SimulationItem.SetupRunsHooksOnce | SKIRT/core/SimulationItem.cpp:13-14 | within one setup call every hook runs at most once, and only for items not yet started |
| SimulationItem.SetupIdempotent | SKIRT/core/SimulationItem.cpp:13 | a second setup of the same item, or of any item the first one started, runs nothing and changes nothing |
| SimulationItem.SetupBrackets | SKIRT/core/SimulationItem.cpp:16-22 | setupSelfBefore of the item runs first; then the setups its before-hook requests and those of its children, which run both hooks of exactly the items they start and never a hook of the item itself; then setupSelfAfter; then only the setups its after-hook requests, which run nothing exactly when all those items had already started |
| SimulationItem.AfterRequestsRunLast | SKIRT/core/SimulationItem.cpp:11-23 | setting up a list of items runs no hook exactly when every one of them has already started |
| SimulationItem.EachRunStarts | SKIRT/core/SimulationItem.cpp:11-23 | after setting up a list of items every SimulationItem in it has started |
| SimulationItem.InterfaceCandidates | SKIRT/core/SimulationItem.cpp:107-114 | the item, its parent, its grandparent and so on up to the root: depth + 1 entries |
| SimulationItem.CandidatesDescend | SKIRT/core/SimulationItem.cpp:107-114 | the ancestor chain has no repeats |
| SimulationItem.SearchOrderCovers | SKIRT/core/SimulationItem.cpp:58-83 | find looks at exactly the ancestors-or-self and their children |
| SimulationItem.SearchOrderStarts | SKIRT/core/SimulationItem.cpp:58-83 | find tests the item first, then its children in order, and goes on to its parent |
| SimulationItem.SearchFindsInFamily | SKIRT/core/SimulationItem.cpp:56-87 | find returns an accepted item among the ancestors-or-self and their children, and returns nothing exactly when none of them is accepted |
| SimulationItem.SearchPrefersNearest | SKIRT/core/SimulationItem.cpp:62-79 | find returns the item itself when it matches, and otherwise its first matching child |
| SimulationItem.SearchSkips | SKIRT/core/SimulationItem.cpp:81-82 | past an ancestor and children that do not match, find continues with the parent, and at the root it finds nothing |
| SimulationItem.InterfaceFindsNearest | SKIRT/core/SimulationItem.cpp:91-103 | interface finds nothing exactly when no candidate implements the interface, and otherwise returns the first candidate that does |
| SimulationItem.InterfaceSearch | SKIRT/core/SimulationItem.cpp:91-103 | interface returns a candidate that implements the interface, and returns nothing exactly when no candidate does |
| SimulationItem.TypeAndNameRoundTrip | SKIRT/core/SimulationItem.cpp:39-52 | typeAndName is the type alone for the default (empty) item name, and type and name are read back from its text |
| SimulationItem.TypeAndName | SKIRT/core/SimulationItem.cpp:39-45 | the type alone when the name is empty; otherwise the type, one space, then the name |
| SimulationItem.Hierarchy.Setup | SKIRT/core/SimulationItem.cpp:11-23 | the flags and the hooks run are those of SetupRun |
| SimulationItem.Hierarchy.SetupEach | SKIRT/core/SimulationItem.cpp:17-21 | each SimulationItem child is set up in order and the other children are skipped |
| SimulationItem.Hierarchy.Locate | SKIRT/core/SimulationItem.cpp:58-83 | the loop over the ancestors and their children finds exactly the item that Search specifies |
| SimulationItem.Hierarchy.ScanChildren | SKIRT/core/SimulationItem.cpp:70-79 | the loop over the children stops at the first accepted child, every child before it being rejected |
| SimulationItem.Hierarchy.Find | SKIRT/core/SimulationItem.cpp:56-87 | find returns the first match in search order, set up when asked; with no match it is a fatal error when asked to set up, and returns nothing otherwise, changing no state |
| SimulationItem.Hierarchy.Interface | SKIRT/core/SimulationItem.cpp:91-103 | interface returns the first candidate implementing the interface, set up when asked; with no match it is a fatal error when asked to set up, and returns nothing otherwise |
| MediumSystem.FlatIndex | SKIRT/core/MediumSystem.hpp:527-531 | the slot `m * numMedia + h` lies within the table of numCells * numMedia entries |
| MediumSystem.FlatIndexRoundTrip | SKIRT/core/MediumSystem.hpp:527-531 | the cell and the medium come back out of a slot by division and remainder |
| MediumSystem.FlatIndexInjective | SKIRT/core/MediumSystem.hpp:527-531 | distinct (m, h) pairs occupy distinct slots |
| MediumSystem.HasMaterialType | SKIRT/core/MediumSystem.hpp:149-151 | true exactly when some medium component has the material type |
| MediumSystem.HasDust | SKIRT/core/MediumSystem.hpp:153-155 | true exactly when some medium component contains dust |
| MediumSystem.HasElectrons | SKIRT/core/MediumSystem.hpp:157-159 | true exactly when some medium component contains electrons |
| MediumSystem.HasGas | SKIRT/core/MediumSystem.hpp:161-163 | true exactly when some medium component contains gas |
| MediumSystem.SomeMaterialType | SKIRT/core/MediumSystem.hpp:149-163 | a system has no material of any type exactly when it has no media |
| MediumSystem.WeightsForScattering | SKIRT/core/MediumSystem.hpp:250-262 | one weight per component; the answer is true exactly when the total scattering opacity is positive, and then each weight times that total is the component's opacity |
| MediumSystem.WeightsNormalized | SKIRT/core/MediumSystem.hpp:257-262 | for nonnegative opacities the answer is false exactly when all are zero; otherwise the weights are nonnegative and sum to one |
| MediumSystem.OpacityOfTypeSigns | SKIRT/core/MediumSystem.hpp:221-227 | the opacity of one material type is nonnegative when its components' opacities are, and zero when no component has that type |
| MediumSystem.OpacityByType | SKIRT/core/MediumSystem.hpp:221-234 | the opacity summed over all components is the sum of the dust, electron and gas opacities |
| MediumSystem.OpticalDepthByType | SKIRT/core/MediumSystem.hpp:297-311 | the optical depth over all components is the sum of the optical depths of the three material types |
| MediumSystem.OpticalDepthOfTypeSigns | SKIRT/core/MediumSystem.hpp:297-311 | the optical depth of one material type is nonnegative on a physical path, and zero when no component has that type |
| MediumSystem.PhysicalDepths | SKIRT/core/MediumSystem.hpp:326-330 | segments with nonnegative lengths and opacities have nonnegative optical depths |
| MediumSystem.CumulativeDepths | SKIRT/core/MediumSystem.hpp:313-340 | one cumulative optical depth per segment |
| MediumSystem.CumulativeIsPrefixDepth | SKIRT/core/MediumSystem.hpp:336-339 | the cumulative depth at the exit of segment i is the optical depth of the path up to and including it; the last one is the depth of the whole path |
| MediumSystem.CumulativeNondecreasing | SKIRT/core/MediumSystem.hpp:326-339 | along a physical path the cumulative depths start from zero, are nonnegative and never decrease |
| MediumSystem.SetInteractionPoint | SKIRT/core/MediumSystem.hpp:342-359 | an interaction that is found lies in one of the path's segments; an empty path has none |
| MediumSystem.SetInteractionPointFirstExceeding | SKIRT/core/MediumSystem.hpp:342-359 | the answer is false exactly when no exit depth exceeds the target; otherwise the interaction lies in the first segment whose exit depth exceeds it |
| MediumSystem.SetInteractionPointInsideSegment | SKIRT/core/MediumSystem.hpp:342-347 | on a physical path the interpolated interaction distance lies between the entry and the exit of its segment |
| MediumSystem.Cleared | SKIRT/core/MediumSystem.hpp:388-397 | table sizes are kept; a primary clear zeroes the primary and stable tables and keeps the temporary one; a secondary clear zeroes only the temporary table |
| MediumSystem.Stored | SKIRT/core/MediumSystem.hpp:399-407 | the target table gains Lds at the one bin and no other; the stable table and the table that is not the target are unchanged |
| MediumSystem.Communicated | SKIRT/core/MediumSystem.hpp:409-415 | a secondary communicate copies the temporary table into the stable one; a primary one changes nothing; the other tables are unchanged |
| MediumSystem.Field | SKIRT/core/MediumSystem.hpp:417-421 | the field in a bin is the primary plus the stable table entry when both are present, the primary entry alone when only the primary table is present, the stable entry alone when only the stable table is present, and zero when neither is; it is nonnegative when the tables are |
| MediumSystem.OperationsKeepShape | SKIRT/core/MediumSystem.hpp:388-415 | clear, store and communicate keep every table present or absent and of its size |
| MediumSystem.ClearedField | SKIRT/core/MediumSystem.hpp:388-397 | a primary clear zeroes the radiation field and keeps the temporary table; a secondary clear keeps the primary and stable tables and so the field |
| MediumSystem.StoredField | SKIRT/core/MediumSystem.hpp:399-407 | a primary store adds Lds to the radiation field at its own bin only; a secondary store leaves the field unchanged |
| MediumSystem.StoredAllAdds | SKIRT/core/MediumSystem.hpp:399-407 | after a sequence of stores each bin of the target table holds its old value plus every contribution to it |
| MediumSystem.PrimarySegment | SKIRT/core/MediumSystem.hpp:388-421 | after clear, stores and communicate of a primary segment the radiation field in each bin is exactly the total stored in it |
| MediumSystem.SecondarySegment | SKIRT/core/MediumSystem.hpp:388-421 | after a secondary segment the field is the primary contribution plus exactly the secondary total stored in the bin |
| MediumSystem.MediumSystem.constructor | SKIRT/core/MediumSystem.hpp:99-105 | the densities start at zero and each requested radiation-field table is allocated with one zero per cell and wavelength bin |
| MediumSystem.MediumSystem.NumberDensity | SKIRT/core/MediumSystem.hpp:527-531 | numberDensity(m, h) reads slot m * numMedia + h of the density table, which lies within it |
| MediumSystem.MediumSystem.SetNumberDensity | SKIRT/core/MediumSystem.hpp:525-527 | writing through state(m, h) sets that pair's density and leaves every other pair's density unchanged |
| MediumSystem.MediumSystem.ClearRadiationField | SKIRT/core/MediumSystem.hpp:388-397 | the tables become Cleared of the old tables |
| MediumSystem.MediumSystem.StoreRadiationField | SKIRT/core/MediumSystem.hpp:399-407 | the bin (m, ell) of the target table gains Lds and every other bin and table is unchanged |
| MediumSystem.MediumSystem.CommunicateRadiationField | SKIRT/core/MediumSystem.hpp:409-415 | the tables become Communicated of the old tables: a secondary communicate copies the temporary table into the stable one |
| MediumSystem.MediumSystem.RadiationField | SKIRT/core/MediumSystem.hpp:417-421 | radiationField(m, ell) adds slot m * numBins + ell of the primary and stable tables, an absent table counting zero |

## Left out

- File opening, `FilePaths`, logging, and `close`/the destructor of the reader: the model reads from the file's text.
- The `std::regex` engine: the header grammar is written out as a hand parser (SplitInfoLine) with its round trip.
- `Units::has` and `Units::in` are abstract functions of the unit system.
- `stringstream >> double`, `pow` and floating-point multiplication are abstract functions (FloatText). The number scanner's length is clamped to the text, so it never reads past the end.
- TextInFile.TextInFile.ReadRow: after a fatal error the contents of the row array are not stated.
- TextInFile.TextInFile.ReadRow: `values` is resized by assigning a new zeroed array when its size differs, rather than resizing in place.
- The ITEM/PROPERTY metadata macros and the discovery framework of simulation items. `dynamic_cast` is a node-type predicate, and the requested type or interface is a predicate on items.
- The side effects of `setupSelfBefore`/`setupSelfAfter` other than the setups they request.
- The atomic thread-safe addition in `storeRadiationField` and the cross-process reduction in `communicateRadiationField`/`communicateStates`: one sequential process is modelled, so communicate only copies the temporary secondary table into the stable one.
- The physics of the medium system: material-mix opacity kernels, Doppler and Hubble perceived wavelengths, `albedoForScattering`, `simulateScattering`, peel-off, `meanIntensity`, dust temperatures, `absorbedDustLuminosity`, and `getOpticalDepth(pp, distance)` with its `ln(L/Lmin)` cut-off.
- The density sampling in `setupSelfAfter` and the per-cell `State1` data (volume, velocity, magnetic field, temperature): only the `State2` number densities and their indexing are modelled.
- The implementation file of the medium system is not part of this model. `opacityExt`, `setOpticalDepths` and `setInteractionPoint` follow their documentation. The interaction is taken in the first segment whose exit depth strictly exceeds the target, and its distance is interpolated linearly inside that segment.
- The spatial-grid path decomposition: the segments (m, Δs) of a path are an input.
- MediumSystem.WeightsForScattering: the weights it leaves behind when it answers false are not stated.
- MediumSystem.SetInteractionPoint: the target optical depth is taken to be nonnegative.
- `unsigned long` is taken to be 64 bits wide (ULONG_MAX = 2^64 - 1), as on the LP64 platforms SKIRT builds on; a platform with a 32-bit `unsigned long` is not modelled.
- SimulationItem.Hierarchy.Find: the cast is a predicate that accepts only SimulationItems, and interface() takes every ancestor of the item to be a SimulationItem, as the source's casts do; what happens when a cast lets another item through is not modelled.
- `Table<2>` is a flat row-major array of numCells × numBins entries; an absent table has length 0.
