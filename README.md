# gofile manifest pipeline in Dafny

This project models the core of package `pkg` in gofile, a tool that installs Go packages listed in a YAML manifest. The core has three parts:

- **The manifest schema.** `pkgSchema` is a constant JSON Schema, draft-04. It accepts a non-empty array of pairwise distinct objects, and each object needs a string `url`. `validate` checks a converted document against it. Any violation gives the single error "Invalid YAML provided".
- **`UnmarshalYAML`.** It converts YAML to JSON, validates the result, and only then decodes it into the receiver's `Packages` list. `UnmarshalYAMLFile` reads a file first and passes file errors through.
- **`Install`.** It runs `go get <url>` for each package in list order and returns the first error.

Files:

- `wrappers.dfy`: `Option` and `Result`.
- `json.dfy`: JSON values and JSON value equality as defined in section 3.6 of the draft-04 core document. The lemma `EqualIsIdentity` proves that equality is equality of the modelled values.
- `schema.dfy`: draft-04 validation for the six keywords `pkgSchema` uses. These are `type` (section 5.5.2 of draft-04 validation), `minItems` (5.3.3), `uniqueItems` (5.3.4), `items` (5.3.1), `required` (5.4.3) and `properties` (5.4.4).
  - The result is the set of violations. Each violation is a kind plus a path.
  - When an instance has the wrong type, only that type violation is reported for its subschema, because gojsonschema stops there.
- `pkg.dfy`: the rest of the core.
  - The schema constant (`PkgSchema`, `ItemSchema`, `UrlSchema`, matching `pkg/pkg.go:37-56`).
  - A direct statement of what the schema means (`IsManifest`), and the proof that the two agree.
  - `Validate`, `Decode`, and the `Packages` class with `UnmarshalYaml`, `UnmarshalYamlFile` and `Install`.
  - The `Runner` class, which stands for the process launcher.
  - `InstallTrace`, the specification of the install loop, and the lemmas about it.

External collaborators become parameters:

- The YAML-to-JSON converter is a function `Bytes -> Result<Json, string>`. Its error message is returned unchanged.
- The file reader is a function `string -> Result<Bytes, string>`.
- The process launcher is a `Runner` object.
  - Its constant `outcome` fixes the environment: whether the n-th launch of an invocation fails, and with which diagnostic.
  - It records every launch (program name and argument list) in a ghost `log`.

Where the code and its tests disagree, the model follows the code. The code returns the fixed message "Invalid YAML provided" for every content failure (`pkg/pkg.go:122`). It does not return the validator's violation text, which `pkg/pkg_public_test.go:55` expects. So the error is `InvalidYaml` and the violations are modelled separately. Without I/O, the violations are the kinds and places the code would log (`pkg/pkg.go:119-121`), without their multiplicity.

## Model

| member | source | states |
|---|---|---|
| `Json.EqualIsIdentity` | pkg/pkg.go:43 | Two JSON values are equal in the sense that `uniqueItems` uses exactly when they are the same modelled value. Object member order plays no part. |
| `Schema.Violations` | pkg/pkg.go:109-121 | The violations validation reports for a value under a schema, each a kind and a path. Every violation is at the validated value's path or below it. What this gives for the manifest schema is stated exactly by the rows below. |
| `Pkg.UrlViolations` | pkg/pkg.go:50-52 | A `url` value passes its subschema exactly when it is a string. Otherwise there is exactly one type violation, at that value's path, giving the actual type. |
| `Pkg.ItemViolations` | pkg/pkg.go:44-53 | The violations of one item, exactly. A non-object gets one object-type violation. An object without `url` gets one `required` violation. A non-string `url` gets one string-type violation at `<path>.url`. Anything else, including extra members, gets none. |
| `Pkg.UniqueIsDistinct` | pkg/pkg.go:43 | `uniqueItems` holds exactly when no two array items are the same value. |
| `Pkg.RootViolations` | pkg/pkg.go:37-56 | The violations of a document, exactly. A non-array root gets one root violation (expected array). For an array, the violations are: `minItems` if it is empty, plus uniqueness if two items are equal, plus every item's own violations. |
| `Pkg.ItemsConform` | pkg/pkg.go:44-53 | No item violation is found exactly when every item is an object with a string `url`. |
| `Pkg.SchemaMeansManifest` | pkg/pkg.go:37-56 | The manifest schema finds no violation exactly when the document is a non-empty array of distinct objects, each with a string `url`. |
| `Pkg.Validate` | pkg/pkg.go:105-125 | Returns nil exactly for a valid manifest. Otherwise it returns the content error, whose message is "Invalid YAML provided". |
| `Pkg.NonArrayRootRejected` | pkg/pkg.go:39 | An object, null or other non-array root fails validation. Its only violation is at the root: expected array, given the root's type. |
| `Pkg.EmptyArrayRejected` | pkg/pkg.go:42 | `[]` fails validation, and `minItems` 1 is its only violation. |
| `Pkg.DuplicateItemsRejected` | pkg/pkg.go:43 | An array with two equal items fails validation with a root uniqueness violation. |
| `Pkg.MissingUrlRejected` | pkg/pkg.go:46-48 | An object item without `url` fails validation with a `required` violation at the item's index. |
| `Pkg.NonStringUrlRejected` | pkg/pkg.go:49-53 | A present but non-string `url` (null, say) fails validation with a string-type violation at `<index>.url`. It does not fail `required`. |
| `Pkg.NullUrlScenario` | pkg/pkg_test.go:61-80 | `[{"url": null}]` has exactly one violation: at `0.url`, expected string, given null. |
| `Pkg.ExtraMembersAllowed` | pkg/pkg.go:43-53 | Two items with the same `url` that differ in another member are not duplicates, and the manifest validates. |
| `Pkg.ToPackages` | pkg/pkg.go:86 | Decoding validated items gives one package per item, in item order. Package i carries item i's `url` string. |
| `Pkg.Decode` | pkg/pkg.go:74-88 | A converter error is returned unchanged. A converted document decodes exactly when it is a valid manifest, and otherwise gives the content error. On success there is one package per array item, in order, with URLs verbatim. |
| `Pkg.SingleEntryDecodes` | pkg/pkg_public_test.go:60-70 | `[{"url": s}]` decodes to exactly one package whose URL is `s`. |
| `Pkg.EncodeDecode` | pkg/pkg.go:58-68 | Round trip: a package list written as a manifest decodes back to the same list exactly when the list is non-empty and its URLs are distinct. Otherwise the content error is returned. |
| `Pkg.Packages.constructor` | pkg/pkg.go:66-68 | A fresh receiver holds no packages, like Go's zero value. |
| `Pkg.Packages.UnmarshalYaml` | pkg/pkg.go:74-88 | On success the error is nil and the package list is the decoded list. On a conversion or validation failure, that error is returned and the previous list is kept. |
| `Pkg.Packages.UnmarshalYamlFile` | pkg/pkg.go:92-102 | A read error is returned unchanged and the list is kept. Otherwise the call behaves as `UnmarshalYaml` on the file's contents. |
| `Pkg.Runner.Run` | pkg/pkg.go:132-135 | Each launch is appended to the log. It returns the environment's diagnostic for that launch number and invocation as an error, or nil. |
| `Pkg.InstallTrace` | pkg/pkg.go:129-142 | The launches of an install always form a prefix of the per-package `go get` list, in list order, and never exceed the list. A nil result means every package was launched. An error means at least one launch was made. |
| `Pkg.InstallTraceAfterSuccesses` | pkg/pkg.go:130-140 | After i successful runs, the install has launched `go get` for the first i packages, in order, and continues with the remaining packages. |
| `Pkg.InstallStopsAtFirstFailure` | pkg/pkg.go:135-139 | If run k is the first to fail, exactly runs 0..k are made, each `go get <url>` in list order. Run k's error is returned, and no package after k is launched. |
| `Pkg.InstallAllSucceed` | pkg/pkg.go:130-141 | If every run succeeds, exactly one `go get <url>` is made per package, in list order, and nil is returned. An empty list makes no launch. |
| `Pkg.InstallFailsIffSomeRunFails` | pkg/pkg.go:129-142 | Install returns nil exactly when every run succeeds, and it never launches more runs than there are packages. |
| `Pkg.Packages.Install` | pkg/pkg.go:129-142 | The runner's log grows by exactly the launches `InstallTrace` specifies, and the returned error is the one it specifies. The receiver's list is unchanged. |

## Left out

- YAML parsing and YAML-to-JSON conversion (`yaml.YAMLToJSON`, `pkg/pkg.go:75`) belong to a foreign library. The converter is a parameter, and its result (a JSON value or an error message) is the model's input.
- File reading (`ioutil.ReadFile`, `pkg/pkg.go:94`) is I/O. The reader is a parameter.
- Running processes, capturing stderr and logging it (`pkg/pkg.go:131-137`) are OS and I/O. The `Runner` stands in for them, and the logged stderr text is not modelled.
- Logging each violation with logrus (`pkg/pkg.go:119-121`) and `fmt.Println` (`pkg/pkg.go:113`) are output. The violations themselves are modelled as a set, because the engine's reporting order and message wording are internal to gojsonschema. For the same reason the model does not capture how often a repeated violation is reported. For example, `uniqueItems` may be reported once for each repeated item, while the set holds it once.
- The schema-load error branch (`pkg/pkg.go:111-115`) cannot be reached, because the schema is a well-formed constant and the model validates JSON values, not text. It is not modelled.
- gojsonschema names a whole number's type "integer" in a type violation. The model reports every number as `NumberType`.
- `Pkg.Decode`: treats `json.Unmarshal` on a validated document (`pkg/pkg.go:86-87`) as always succeeding and taking exactly the `url` member.
  - Go's decoder also matches keys case-insensitively.
  - The converter writes object keys in sorted order, and all-lowercase `url` sorts after every case variant, so `url` is decoded last and the decoded list is the one the model gives.
  - But a case variant holding a value that is neither a string nor null, for example `[{"url": "x", "URL": 5}]`, makes `json.Unmarshal` return a type error after decoding finishes.
  - On that input the source assigns the whole list and returns the type error, while the model returns nil. Go's case folding is not modelled.
- `Pkg.Packages.UnmarshalYaml`: inherits the `json.Unmarshal` gap stated on the `Pkg.Decode` line. On such input the real method assigns the list and returns a type error, where the model returns nil.
- The debug flag, `RunCmd`, the "Installing:" and "COMMAND:" output and the `-v` flag appear only in tests (`pkg/pkg_public_test.go:104-177`). They are not in `pkg/pkg.go` and are not modelled.
- The command-line shell (`cmd/root.go`, `cmd/install.go`) and coloured terminal output (`utils/utils.go`) are presentation and process exit. They are not part of this model.
