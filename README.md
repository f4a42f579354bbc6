# CloudBakery: the bookkeeping around the bake, in Dafny

CloudBakery's `main` reads a directory of DDS textures and sorts them into
texture sets. Each set has one transmittance texture and any number of
radiance samples, each sample lit from its own light direction. For every set
it then runs a compute kernel that accumulates spherical-harmonics
coefficients, saves three coefficient textures and, optionally, a
reconstruction used for validation.

This project models the sequential logic around the Direct3D calls. The GPU
side is a list of recorded commands.

- `filename.dfy` (module `FileName`) covers three things:
  - `faceStrToUint`;
  - the `.dds` extension test, with the semantics of
    `std::filesystem::path::extension`;
  - the two RE2 file-name patterns, as RE2 matches them: `.` does not match
    a newline, `\d` is an ASCII digit, and `FullMatch` is anchored.

  The transmittance pattern has a fixed ten-character tail. For the
  radiance-sample pattern, faces and number tokens never contain `_`, so the
  greedy `(.*)` has exactly one choice: the model splits at the last four
  underscores ahead of the extension. `NumberTokenCorrect` proves that a
  small scanning automaton accepts exactly the number sub-pattern.
- `catalog.dfy` (module `Catalog`) models the read loop as values:
  - `Admit` is one directory entry;
  - `ReadAll` is the whole listing;
  - the lemmas describe the resulting `tex_inputs` map.

  Both patterns accept the face `-z`, but `faceStrToUint` has no `-z`
  entry. For a `-z` file that matches either pattern and loads, `KEYMAP.at`
  throws `std::out_of_range`, nothing catches it, and the run ends. The model records this as the outcome `Terminated`. At
  that point the map has already been updated and only the face assignment
  is missing.
- `plan.dfy` (module `Plan`) covers the processing loop:
  - `VerdictOf` decides whether a set is skipped;
  - `SetPlan` lists the commands for one set;
  - `PlanAll` covers all sets in a given iteration order;
  - `ByteWidth` and the thread-group counts are written in integer form;
    `(n + 7) / 8` wraps in `uint32_t`.

  The constant buffer persists from one set to the next, so each plan also
  takes what the buffer held beforehand. The help text of `-v`
  (src/main.cpp:238-239) speaks of a reconstruction "of the first image of
  the set", but the code evaluates the reconstruction at the last colour's
  direction and names its file after it (src/main.cpp:436, 487). The model
  follows the code.
- `baker.dfy` (module `Bakery`) is the imperative model. Class `D3dObjs` has
  three fields:
  - `texInputs`, the catalog;
  - `commonBuffer`, what the constant buffer last received;
  - `commands`, the commands issued so far.

  Its methods update the fields in place, as the source does.
  `ReadTextures` is the read loop and `Process` is the processing loop.
  `Dispatch` overwrites `cb_data.light_dir` once per colour. Each method is
  proved against the matching functions in `Catalog` and `Plan`.
- `scenario.dfy` (module `Scenario`) is a worked instance: one `+z` cloud set
  with a transmittance texture and two samples, followed from file names to
  output files.

The iteration order of `std::unordered_map` is a parameter, `order`. The
lemmas `FilesIndependentOfOrder` and `SameFilesInAnyOrder` show that the set
of files written does not depend on that order.

## Model

| member | source | states |
|---|---|---|
| FileName.FaceStrToUint | src/main.cpp:104-114 | Defined exactly on `+x,-x,+y,-y,+z`, returning the string's position in that list. Any other string is the `std::out_of_range` that `KEYMAP.at` throws. |
| FileName.FaceNamesRoundTrip | src/main.cpp:104-114 | Each of the five table keys is a `[+-][xyz]` face and maps back to its own index 0..4. |
| FileName.FaceLookupFailsOnlyForMinusZ | src/main.cpp:104-114 | Of the six faces the patterns accept, `-z` is the only one the table lacks. |
| FileName.Extension | src/main.cpp:317 | `path::extension()` of a file name is either empty or the suffix from the name's last dot on, and that dot is never the first character. |
| FileName.HasDdsExtension | src/main.cpp:317 | The extension test `extension() != ".dds"` negated. Its meaning (at least five characters ending in `.dds`) is stated by `DdsExtensionIsSuffix`. |
| FileName.DdsExtensionIsSuffix | src/main.cpp:317 | A file name passes the extension test iff it has at least five characters and ends in `.dds`, so `.dds` alone has no extension. |
| FileName.IsNumberToken | src/main.cpp:313 | The matcher for one number token, a six-state scanner. `NumberTokenCorrect` proves it accepts exactly the number sub-pattern. |
| FileName.NumberTokenCorrect | src/main.cpp:313 | The scanning automaton accepts a string iff it matches `[+-]?(?:\d*\.\d+\|\d+\.\d*\|\d+)`. |
| FileName.NumberPatternShape | src/main.cpp:313 | A number token is non-empty, has no `_`, and ends in a digit or a dot. |
| FileName.TrIsNotANumber | src/main.cpp:312-313 | `tr` is not a number token. |
| FileName.MatchTr | src/main.cpp:312 | When the matcher captures, the name really is `identifier_face_tr?dds`, with a newline-free identifier and a `[+-][xyz]` face. |
| FileName.MatchTrComplete | src/main.cpp:312 | Every way the transmittance pattern can match a name gives the captures the matcher returns: the capture is unique. |
| FileName.MatchColor | src/main.cpp:313 | When the matcher captures, the name really is `identifier_face_x_y_z?dds`, with three number tokens. |
| FileName.MatchColorComplete | src/main.cpp:313 | Every way the radiance-sample pattern can match a name gives the captures the matcher returns, so the greedy identifier has only one choice. |
| FileName.PatternsDisjoint | src/main.cpp:312-313 | No name matches both patterns. |
| FileName.Classify | src/main.cpp:316-331 | The result is `WrongExtension` iff the extension test fails. `NoMatch` means neither matcher matched. A transmittance or radiance-sample result, with its captures, spells out the name exactly. |
| FileName.ClassifyTransmittanceName | src/main.cpp:312-331 | Any newline-free identifier (empty or holding underscores) with any face gives a name that is classified as a transmittance with exactly those captures. |
| FileName.ClassifyRadianceName | src/main.cpp:313-331 | Any identifier, face and three number tokens give a name classified as a radiance sample with exactly those captures. |
| FileName.NoMatchMeansNeitherPattern | src/main.cpp:327-331 | A name classified as a mismatch has the `.dds` extension, and no decomposition fits either pattern. |
| Catalog.Key | src/main.cpp:352 | The catalog key `std::format("{}_{}", identifier, face_str)`. `KeySplits` and `KeyInjective` state that face and identifier can be read back and that distinct pairs give distinct keys. |
| Catalog.KeySplits | src/main.cpp:352 | The key `identifier_face` ends in the face string, with the identifier before the last `_`. |
| Catalog.KeyInjective | src/main.cpp:352 | Two (identifier, face) pairs give the same key only if they are equal. |
| Catalog.Admit | src/main.cpp:316-363 | Each skip outcome holds exactly in its own case: a failed extension test, a naming mismatch, a load failure, a non-2D resource. These leave the map unchanged. Otherwise the entry's key is added, and the run ends iff the face is `-z`. Every other key keeps its set. |
| Catalog.ColorAppends | src/main.cpp:358-360 | An accepted radiance sample is appended at the end of its set's colours. The transmittance is untouched. |
| Catalog.TransmittanceOverwrites | src/main.cpp:356-357 | An accepted transmittance silently replaces the previous one. The colours are untouched. |
| Catalog.FaceFollowsKey | src/main.cpp:352-362 | After an accepted entry, the set's face is the index of the face string that ends its key. |
| Catalog.VisitsWellFormed | src/main.cpp:312-313 | Every classified match carries a `[+-][xyz]` face. |
| Catalog.ReadAll | src/main.cpp:314-365 | The read loop over the classified listing, stopping at the first throw. It never removes a key. Its contents are stated by `CatalogContents`, `TerminatesIffMinusZ` and `TerminationIsFinal`. |
| Catalog.TerminationIsFinal | src/main.cpp:362 | Once `faceStrToUint` has thrown, later entries change nothing. |
| Catalog.TerminatesIffMinusZ | src/main.cpp:314-365 | Reading ends early iff some entry with face `-z` matches a pattern and loads as a 2D texture. |
| Catalog.CatalogContents | src/main.cpp:314-365 | When reading completes, the map holds exactly the keys some admitted file produced. Each set's colours are that key's samples in visit order. Its transmittance is the key's last one. Its face is the index of the key's face. |
| Bakery.D3dObjs.constructor | src/main.cpp:224 | `d3d{}` starts with an empty catalog, no upload to the constant buffer and no commands. |
| Bakery.D3dObjs.ReadTexture | src/main.cpp:315-363 | One loop iteration updates `texInputs` and returns the outcome that `Admit` gives for the classified name. The other fields are unchanged. |
| Bakery.D3dObjs.Store | src/main.cpp:327-363 | The in-place update (insert `{}`, assign `.tr` or `push_back` onto `.colors`, then `.face`) equals `Admit`, including the partial update when `faceStrToUint` throws. |
| Bakery.D3dObjs.ReadTextures | src/main.cpp:310-366 | The loop leaves `texInputs` and the terminated flag equal to `ReadAll` over the classified listing. |
| Plan.ByteWidth | src/main.cpp:371 | `(size + 63) & ~63` is a multiple of 64, at least `size` and less than `size + 64`. |
| Plan.ByteWidthIsLeast | src/main.cpp:371 | No smaller multiple of 64 holds `size` bytes. |
| Plan.BakeCBDataByteWidth | src/main.cpp:84-90 | `sizeof(BakeCBData)` is 32 (so the static_assert holds), and the constant buffer is 64 bytes. |
| Plan.UploadOverrun | src/main.cpp:437 | A whole-buffer upload reads past its source exactly when the buffer is wider than the source, and then by the difference. |
| Plan.UploadReadsPastCBData | src/main.cpp:437 | As written, each upload of the 32-byte `cb_data` into the 64-byte constant buffer reads 32 bytes beyond the struct. |
| Plan.CBufferByteWidth | src/main.cpp:371 | The corrected width: a multiple of 16 that is at least `size` and less than 16 above it. |
| Plan.CorrectedUploadFits | src/main.cpp:371 | For a size that is a multiple of 16, as the static_assert demands, the corrected width is the size itself and an upload reads nothing beyond the struct. |
| Plan.GroupCount | src/main.cpp:448 | Without wrap-around, `(n + 7) / 8` groups of 8 cover `n`, and one group fewer would not. |
| Plan.GroupCountIsLeast | src/main.cpp:448 | Every group count that covers `n` is at least `(n + 7) / 8`. |
| Plan.GroupCountWraps | src/main.cpp:448 | For every `n` with `n + 7` at least 2^32, the 32-bit sum wraps and no group is dispatched. |
| Plan.AnyMismatch | src/main.cpp:417 | True iff some colour's width or height differs from the given size. |
| Plan.VerdictOf | src/main.cpp:408-420 | `NoTransmittance` iff the set has no transmittance. `Accepted` iff it has one and every colour has its width and height. |
| Plan.ShFileName | src/main.cpp:460 | `{key}_sh{i}.dds`. `ShFileNamesDistinct` states that distinct keys or indices give distinct names. |
| Plan.LastLightDir | src/main.cpp:429-436 | The `cb_data.light_dir` left by the dispatch loop, used in the `_re` name: the last colour's direction, or zero for the value-initialised struct. `Bakery.D3dObjs.Dispatch` is proved to return it. |
| Plan.BufferAfter | src/main.cpp:437 | What the constant buffer holds after a set: unchanged for a skipped set or one without colours, otherwise the last upload. `Bakery.D3dObjs.Dispatch` is proved to leave it. |
| Plan.Bakes | src/main.cpp:435-455 | The first `n` bake dispatches of a set, exactly `n` of them. `BakesInOrder` states that the i-th uses colour i. |
| Plan.SetPlan | src/main.cpp:406-489 | The commands of one loop iteration: empty iff the set is skipped. For an accepted set there are 1 + colours + 3 commands, plus 2 when validating. Their content is stated by `ProcessedSetBakes`, `SetPlanWrites` and `ValidationPass`. |
| Plan.PlanAll | src/main.cpp:405-491 | The processing loop over the keys in the given order, with the constant buffer carried from set to set. `PlanAllWrites`, `FilesIndependentOfOrder` and `SameFilesInAnyOrder` state what it writes. |
| Plan.ShFileNamesDistinct | src/main.cpp:458-460 | Two `{key}_sh{i}.dds` names are equal only for the same key and index. |
| Plan.SkippedSetIssuesNothing | src/main.cpp:408-420 | A skipped set issues no command and leaves the constant buffer as it was. |
| Plan.ProcessedSetBakes | src/main.cpp:429-455 | An accepted set gets exactly one bake per colour, in colours order. Each bake uses that colour's direction, a weight of one over the number of colours, the set's face and `((w+7)/8, (h+7)/8, 1)` groups. |
| Plan.SetPlanWrites | src/main.cpp:458-487 | An accepted set writes `key_sh0.dds`, `key_sh1.dds`, `key_sh2.dds` (even with no colours), plus one reconstruction named after the last direction when validating. A skipped set writes nothing. |
| Plan.ValidationPass | src/main.cpp:463-487 | When validating, the plan ends with the validation dispatch and the reconstruction, named after the last colour's direction (zero without colours). The dispatch sees the last upload. For a set without colours that is whatever the buffer held before the set: the last upload of an earlier set with colours, or nothing. |
| Plan.PlanAllWrites | src/main.cpp:405-491 | The loop writes each set's files in visiting order, whatever the constant buffer holds. |
| Plan.FilesIndependentOfOrder | src/main.cpp:405-491 | For any order that visits every key, a file is written iff some catalog set writes it. |
| Plan.SameFilesInAnyOrder | src/main.cpp:405-491 | Two visiting orders of one catalog write the same files. |
| Bakery.D3dObjs.Dispatch | src/main.cpp:423-455 | Clears the accumulators, then appends one bake per colour. Returns `LastLightDir`, the direction `cb_data.light_dir` holds afterwards, and leaves the last upload in `commonBuffer`. |
| Bakery.D3dObjs.SaveCoefficients | src/main.cpp:458-460 | Appends the three `{key}_sh{i}.dds` saves in index order. |
| Bakery.D3dObjs.BakeSet | src/main.cpp:423-489 | For an accepted set, appends the set's whole plan and leaves the constant buffer as `BufferAfter` says. |
| Bakery.D3dObjs.ProcessSet | src/main.cpp:406-489 | One iteration appends `SetPlan` for the stored set, given the buffer's previous contents. The catalog is unchanged. |
| Bakery.D3dObjs.Process | src/main.cpp:405-491 | The loop appends `PlanAll` over the given key order and ends with the buffer that plan predicts. |
| Bakery.RunBakery | src/main.cpp:310-491 | From an empty `d3d`: if reading throws, no command is issued; otherwise the commands are those of `PlanAll` over the catalog `ReadAll` builds. |
| Scenario.TrNameClassifies | src/main.cpp:312 | `cloud_+z_tr.dds` is the transmittance of identifier `cloud`, face `+z`. |
| Scenario.UpNameClassifies | src/main.cpp:313 | `cloud_+z_0.00_0.00_1.00.dds` is a radiance sample with those three tokens. |
| Scenario.SideNameClassifies | src/main.cpp:313 | `cloud_+z_1.00_0.00_0.00.dds` is a radiance sample with those three tokens. |
| Scenario.EntriesClassify | src/main.cpp:312-313 | Classifying the names of the three directory entries gives the listing: one transmittance and two radiance samples of `cloud`, `+z`. |
| Scenario.ClassifiedListingBuildsCloudSet | src/main.cpp:314-365 | Admitting that classified listing builds the single set `cloud_+z` with face 4. |
| Scenario.ListingBuildsCloudSet | src/main.cpp:310-365 | Reading the three directory entries, from their file names on, builds the single set `cloud_+z` with face 4, the transmittance and both samples in order. |
| Scenario.CloudSetBakes | src/main.cpp:435-455 | That set is baked twice, the side sample last, with 8 x 8 x 1 groups and a sample count of 2. |
| Scenario.CloudSetFiles | src/main.cpp:458-487 | It writes `cloud_+z_sh0/1/2.dds` and, when validating, a reconstruction named after the side sample's direction. |
| Scenario.SmallerSampleSkipsSet | src/main.cpp:417-420 | A 32 x 32 sample in a 64 x 64 set makes the whole set skipped. |
| Scenario.MinusZEndsRun | src/main.cpp:362 | A loadable `cloud_-z_tr.dds` ends the run. |

## Left out

- Direct3D calls are recorded as commands or not modelled at all. This covers device creation, textures, views, binding, `UpdateSubresource` and `Dispatch`. The kernels in `Bake.cs.hlsl` and `Validation.cs.hlsl` are not part of this model, so the SH projection is not modelled.
- The DDS loader (`CreateDDSTextureFromFile`) and the `ID3D11Texture2D` query are replaced by a per-entry result: load failed, not a 2D texture, or loaded with a width and height. The directory listing is a given sequence of entries.
- Capture, BC6H compression and saving (`saveTextureToDDS`) are recorded only as file names. Their `ThrowIfFailed` aborts on failure are not modelled.
- The following are left out: argument parsing, the existence checks and directory creation, logging, shader compilation and its `E_FAIL` return, and the `HRESULT` returns of device and buffer creation. Whether `--validation-dir` (`-v`) is empty is the flag `validate`.
- Floating point is not modelled:
  - a light direction is kept as its three captured tokens, and the normalisation by `XMVector3Normalize` is not modelled;
  - the weight `1/N` is recorded as the sample count `N`;
  - the `{:.2f}` formatting of the reconstruction name is recorded as the direction itself.
- Catalog.Admit and FileName.Classify: when a number token matches the pattern but RE2's float conversion rejects it, for example a token too long for RE2's buffer, the real program reports a naming mismatch. The model accepts such a token.
- The `unordered_map` iteration order is a parameter. Bakery.RunBakery requires that order to list each catalog key exactly once.
- File names are sequences of characters. Wide-path conversion and encodings are not modelled, and neither is anything `std::filesystem` does beyond the extension rule for a plain file name.
- A shader resource view is represented by its presence: `tr == None` stands for `tr.srv == nullptr`. The colours' views and the accumulator textures themselves are not modelled.

## Findings

| source | as written | input that shows it | evidently intended | confidence | as-written member | corrected member |
|---|---|---|---|---|---|---|
| src/main.cpp:437 | The constant buffer's ByteWidth rounds `sizeof(BakeCBData)` up to 64, and `UpdateSubresource` with a null box copies the whole buffer from `&cb_data`. | Every upload: `sizeof(BakeCBData)` is 32 and the buffer is 64 bytes, so 32 bytes past the struct are read. | A width rounded to the 16 bytes a constant buffer needs, which by the static_assert is the struct's own size. | medium, not executed; it rests on the documented behaviour of `UpdateSubresource` for constant buffers | Plan.UploadReadsPastCBData | Plan.CorrectedUploadFits |
