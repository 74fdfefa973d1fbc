# JsonData schema validation, modelled in Dafny

This project models the schema-validation engine of the MediaWiki JsonData
extension. The engine takes a decoded JSON document and a JSON schema, where
the schema uses a subset of JSON Schema draft-03:

- `type`, including `"any"`;
- `properties`, `additionalProperties` and `items` (first entry only);
- boolean `required`, `title`;
- same-document `id` / `$ref` aliasing.

The engine checks the document depth-first and stops at the first failure.
The project has four pieces, one for each PHP class.

- **`TreeRefs`** (`tree_ref.dfy`) models `TreeRef`. A schema ref is an
  immutable datatype holding four things:
  - the fragment;
  - its parent ref;
  - its index in the parent;
  - its display name.
- **`SchemaIndex`** (`schema_index.dfy`) models `JsonSchemaIndex`.
  - `IndexSubtree` is the post-order walk that fills the `idtable` field of a
    `JsonSchemaIndex` object. It is proved equal to the function `Collect`.
  - Lemmas about `Collect` say:
    - which ids end up in the table;
    - which fragment wins for each id;
    - what the walk does not descend into.
  - `ResolveRef` is `newRef`: it checks a `$ref` and expands it by one hop.
- **`JsonUtil`** (`json_util.dfy`) models `JsonUtil`:
  - the id sanitiser `stringToId`;
  - the type of a decoded value `getType`, as a loop proved against
    `InferType`;
  - the default values `getNewValueForType`.
- **`JsonTree`** (`json_tree_ref.dfy`) models `JsonTreeRef` as a class with
  the PHP fields. It covers:
  - construction and `attachSchema`;
  - titles, full index, data path and path titles, by recursion along the
    parent links, with lemmas tying the full index and the node to the data path;
  - child navigation;
  - `renamePropname`, which edits the parent's array in place;
  - `validate` and its two loops.

  Every method of the walk is proved equal to a pure specification in
  `Validation` (`validation.dfy`). `ValidationFacts` (`validation_facts.dfy`)
  proves what that specification guarantees.

`JsonValue` (`json_value.dfy`) models decoded values as they are in PHP:
- null, bool, int, double, string;
- arrays as ordered sequences of int or string keys with values.

`Put` and `Remove` model `$a[$k] = $v` and `unset($a[$k])`.

`Php` (`php.dfy`) models the PHP 8 semantics the decisions depend on:
- `(bool)` conversion;
- loose `==` against the type words and against null;
- the `(int)` cast of a double, truncating inside the 64-bit int range and wrapping modulo 2^64 outside it;
- which string array keys PHP reads as ints ("5" but not "05" or "-0");
- int-to-string conversion.

`SchemaErrors` models the exceptions that are thrown. Each is a
`JsonSchemaException` with its message key, message parameters and `subtype`,
or the `TypeError` PHP raises when a non-array is used as a schema fragment or an
array `$ref` is given to `strspn`.

Paths in the table are relative to the repository root.

## Model

| member | source | states |
|---|---|---|
| JsonValue.Put | includes/JsonTreeRef.php:100 | `$a[$k] = $v`: the key then reads `v` and every other key reads as before. An existing key keeps its position; a new key is appended. |
| JsonValue.Remove | includes/JsonTreeRef.php:104 | `unset($a[$k])`: the key is gone, every other key reads as before, no entry is invented, and an absent key changes nothing. |
| JsonValue.RemoveKeepsOrder | includes/JsonTreeRef.php:104 | `unset` keeps the remaining entries in their order: removing from a concatenation removes from each part, and a single entry is dropped exactly when it has the key. |
| JsonValue.RenameEntries | includes/JsonTreeRef.php:98-105 | The parent's array after a rename: the node is under the new key, the old key is gone, other keys are untouched, and distinct keys stay distinct. A rename to the same key deletes the entry. |
| Php.Truncate | includes/JsonTreeRef.php:262-263 | `(int)` of a double truncates toward zero: the result is within one of the value on the side of zero. |
| Php.IntCast | includes/JsonTreeRef.php:263 | `(int)` of a double always lands in the 64-bit int range, and inside that range it is the truncation. |
| Php.IntCastExactlyWhole | includes/JsonTreeRef.php:262-263 | A double equals its `(int)` cast exactly when it is a whole number inside the 64-bit int range; 1e20 is whole but does not. |
| Php.WholeButTooWide | includes/JsonTreeRef.php:262-263 | The double 1e20 is whole but is not equal to its `(int)` cast, so it does not pass as an integer. |
| Php.IntToString | includes/JsonUtil.php:11-12 | `(string)$i` is non-empty. It starts with '-' exactly for negatives, and its digits read back as the absolute value. Only zero is written with a leading '0'. |
| Php.NatToStringRoundTrip | includes/JsonUtil.php:11-12 | Reading the decimal form back gives the number, so the conversion loses nothing. |
| Php.CanonicalDigitsRoundTrip | includes/JsonTreeRef.php:100 | A run of digits without a leading zero, or "0" alone, is the decimal form of the number it reads as. |
| Php.IntegerKey | includes/JsonTreeRef.php:100 | A string PHP reads as an integer array key is in the 64-bit range and is exactly that integer's decimal form. |
| Php.IntegerKeyRoundTrip | includes/JsonTreeRef.php:100 | The decimal form of every 64-bit integer is read back as that integer key. |
| Php.ArrayKey | includes/JsonTreeRef.php:100-104 | The key `$a[$k]` uses: an int key is unchanged. A string key becomes an int only when it is the decimal form of that int; otherwise it stays the same string. |
| JsonUtil.FilterIdChars | includes/JsonUtil.php:14 | The filter keeps only id characters and is no longer than its input. An input made only of id characters comes back unchanged, and a single character is kept exactly when it is an id character. |
| JsonUtil.FilterIdCharsAppend | includes/JsonUtil.php:14 | The filter works character by character: it distributes over concatenation. |
| JsonUtil.StringToId | includes/JsonUtil.php:10-19 | Ints and strings convert to strings of id characters; every other kind of value gives `jsonschema-idconvert`, and only those do. |
| JsonUtil.StringToIdIdempotent | includes/JsonUtil.php:13-14 | Sanitising an already sanitised id changes nothing. |
| JsonUtil.KeyHasId | includes/JsonUtil.php:10-14 | Every array key converts: an int key to its decimal form, a string key to its filtered form. |
| JsonUtil.IdsCollide | includes/JsonUtil.php:7-14 | The conversion is lossy: "a b" and "ab" get the same id. |
| JsonUtil.KeyToId | includes/JsonTreeRef.php:142 | The id segment of an index is exactly what `stringToId` returns for it, and it is made of id characters. |
| JsonUtil.InferType | includes/JsonUtil.php:54-78 | The type is null exactly for null. A bool is "boolean", an int or double is "number", and a string is "string". An array is "object" iff some key is not an int, otherwise "array"; the empty array is "array". |
| JsonUtil.GetType | includes/JsonUtil.php:54-78 | The loop over the array keys computes `InferType`. |
| JsonUtil.NewValueForType | includes/JsonUtil.php:25-49 | Object and array give `[]`, number and integer give 0, string gives "". String, number and boolean give a value of that type. `true` matches the first loose case and gives `[]`; `false` matches none and gives null. Any other type word, and any non-string non-bool type, gives null. The default is always falsy. |
| SchemaIndex.WithDefaultType | includes/JsonSchemaIndex.php:41-43 | The walk's local copy has `type` 'any' when the fragment has none; every other member is unchanged. |
| SchemaIndex.ChildArray | includes/JsonSchemaIndex.php:44-58 | The walk descends under a loosely-'object' type into `properties`, and under a loosely-'array' type into `items`, only when that member is an array; otherwise it descends nowhere. What it descends into is smaller than the fragment. |
| SchemaIndex.Register | includes/JsonSchemaIndex.php:59-61 | A fragment with a string `id` is stored under that id as its local copy; the other entries are unchanged. |
| SchemaIndex.Collect | includes/JsonSchemaIndex.php:40-62 | The walk never removes an entry, and a fragment with a string `id` always leaves that id in the table. |
| SchemaIndex.CollectDomain | includes/JsonSchemaIndex.php:40-62 | The walk adds exactly the ids of the fragments it visits. |
| SchemaIndex.CollectFromDomain | includes/JsonSchemaIndex.php:47-56 | The same over the values of `properties` or `items`, from a position on. |
| SchemaIndex.CollectKeepsOthers | includes/JsonSchemaIndex.php:40-62 | Entries whose id the walk never meets keep their values. |
| SchemaIndex.CollectFromKeepsOthers | includes/JsonSchemaIndex.php:47-56 | The same over the values of `properties` or `items`, from a position on. |
| SchemaIndex.ReachableIdIndexed | includes/JsonSchemaIndex.php:40-62 | Every fragment the walk reaches that has a string `id` is in the table under that id. |
| SchemaIndex.IndexedIsReachable | includes/JsonSchemaIndex.php:59-61 | Every new entry is the default-typed copy of a reached fragment, stored under that fragment's own id. |
| SchemaIndex.LastWriter | includes/JsonSchemaIndex.php:45-61 | Every id the walk meets ends up in the table (`WritesLast`). Its entry is the default-typed copy of a reached fragment that carries that id last in post-order (children before their parent), so the last write wins. |
| SchemaIndex.PostOrderIds | includes/JsonSchemaIndex.php:45-61 | Every id carried by a fragment of the post-order is one the walk meets. |
| SchemaIndex.OwnIdWins | includes/JsonSchemaIndex.php:59-61 | A fragment is registered after its children, so its own entry overwrites a descendant's with the same id. |
| SchemaIndex.CollectStoresArrays | includes/JsonSchemaIndex.php:40-62 | Every value the walk stores is an array. |
| SchemaIndex.UntypedNotDescended | includes/JsonSchemaIndex.php:41-58 | A fragment without `type` counts as 'any': it is registered, but nothing below it is. |
| SchemaIndex.JsonSchemaIndex.constructor | includes/JsonSchemaIndex.php:23-32 | `root` is the schema as given. The table is the walk's result, or empty for a null schema. |
| SchemaIndex.JsonSchemaIndex.IndexSubtree | includes/JsonSchemaIndex.php:40-62 | The recursive walk leaves the table equal to `Collect` of the fragment over the old table. |
| SchemaIndex.JsonSchemaIndex.IndexChildren | includes/JsonSchemaIndex.php:44-58 | The loop over `properties` or `items` leaves the table equal to `CollectChildren`. |
| SchemaIndex.JsonSchemaIndex.NewRef | includes/JsonSchemaIndex.php:75-91 | `newRef` on the index's own table is `ResolveRef`. |
| SchemaIndex.LeadingHashes | includes/JsonSchemaIndex.php:77 | `strspn($s, '#')`: the length of the leading run of '#'. |
| SchemaIndex.WellFormedRefShape | includes/JsonSchemaIndex.php:77-80 | A `$ref` passes the check iff it is a string starting with exactly one '#'. |
| SchemaIndex.ResolveRef | includes/JsonSchemaIndex.php:75-91 | Without `$ref` the ref holds the fragment as given. A well-formed `$ref` to an indexed id gives that entry. Any other non-array `$ref` gives `jsonschema-badidref`, as the code intends; see Findings. A non-array fragment or an array `$ref` (which `strspn` refuses) is a TypeError, and only those are. Parent, index and name are always kept. |
| SchemaIndex.ResolveRefAsWritten | includes/JsonSchemaIndex.php:81-88 | The lookup as written differs from `ResolveRef` only by giving a null fragment. |
| SchemaIndex.DanglingRefAsWritten | includes/JsonSchemaIndex.php:81-88 | A `#name` missing from the table: as written the fragment is null, while the intended lookup reports badidref. |
| SchemaIndex.ResolvedNodesAreArrays | includes/JsonSchemaIndex.php:75-91 | Against a table built by the walk, every resolved fragment is an array. |
| SchemaIndex.AliasTransparent | includes/JsonSchemaIndex.php:81-90 | A fragment whose `$ref` names an indexed fragment with no `$ref` of its own resolves to exactly that fragment, whatever other members it has, so they are dropped. What happens when the target has a `$ref` of its own (it is not followed) is stated by `ResolveRef`. |
| Validation.TitleOf | includes/JsonTreeRef.php:85-86 | A string or int `title` member is the title, as a string or int key. There is no title without a `title` member. |
| Validation.ValueAt | includes/JsonTreeRef.php:223 | `$node[$key]`: the stored value, or null for a missing key. It is smaller than the array. |
| Validation.SchemaType | includes/JsonTreeRef.php:113-129 | The effective schema type is the declared `type` unless it is loosely 'any'. When `type` is absent or loosely 'any', it is the data's own type. It is never 'any'. |
| Validation.DataType | includes/JsonTreeRef.php:256-266 | The data's type after the two loosenings, one iff per type name. Any array is an 'object' where the schema says object. A number is an 'integer' iff the schema says integer and it equals its int cast. |
| Validation.RequiredScan | includes/JsonTreeRef.php:296-305 | The scan passes iff every property schema is an array and every truthy-`required` property is present. Otherwise it raises `validate-fail-missingfield`, or a TypeError for a non-array property schema. With array property schemas only, it never raises a TypeError. |
| Validation.MemberSchema | includes/JsonTreeRef.php:201-222 | Choosing a member's schema fails only with a TypeError or with `jsonschema-invalidkey` carrying the key and the path titles. A member is named by something other than its key only when `properties` declares it. |
| Validation.MappingChild | includes/JsonTreeRef.php:200-227 | The child of a member holds `$node[$key]` under the schema ref `newRef` makes from the chosen member schema, with this ref as parent and the key as index. It fails exactly when choosing the schema or `newRef` fails, with that error. |
| Validation.SequenceChild | includes/JsonTreeRef.php:235-247 | An item's child holds `$node[$i]` under the schema ref `newRef` makes from `items[0]`, at index 0. It is named "<title or Item> #<i+1>". It fails exactly when `newRef` fails, with that error: a TypeError or `jsonschema-badidref`. |
| Validation.ItemSchema | includes/JsonTreeRef.php:237-241 | The item schema is `items[0]`, null when absent; `[]` without `items`. A non-array `items` never gives an array schema. |
| Validation.FirstFailure | includes/JsonTreeRef.php:308-311 | A run of outcomes passes iff each one passes. Otherwise the result is the failure at the first failing position. |
| Validation.FirstFailureAt | includes/JsonTreeRef.php:308-311 | If everything before position n passes and n fails, the failure at n is the result. |
| Validation.TypeCheck | includes/JsonTreeRef.php:256-280 | The type check passes iff the fragment is an array and the types loosely match. A non-array fragment is a TypeError. Null data at the root gives `validate-fail-null`, and only there. Every other mismatch gives exactly `validate-fail` naming the schema type, the data type ('null' for null) and the path titles. |
| Validation.Check | includes/JsonTreeRef.php:255-290 | `validate` gives `validate-fail-null` only for null data at the root. |
| Validation.CheckChildren | includes/JsonTreeRef.php:281-287 | The member or item pass after a successful type check never reports `validate-fail-null`. |
| Validation.CheckObject | includes/JsonTreeRef.php:295-313 | Object validation never reports `validate-fail-null`. |
| Validation.MemberOutcomes | includes/JsonTreeRef.php:308-311 | One outcome per member, in the data's order. |
| Validation.MemberOutcome | includes/JsonTreeRef.php:309-310 | A member below the root never gives `validate-fail-null`. |
| Validation.ItemOutcomes | includes/JsonTreeRef.php:316-320 | One outcome per item 0 .. count-1. |
| Validation.ItemOutcome | includes/JsonTreeRef.php:318-319 | An item below the root never gives `validate-fail-null`. |
| ValidationFacts.ClosedMappingEnforced | includes/JsonTreeRef.php:207-213 | Data that validates under an object schema whose `additionalProperties` is loosely false has only declared members. |
| ValidationFacts.RequiredFieldEnforced | includes/JsonTreeRef.php:296-305 | Data that validates under an object schema has every property flagged as required. |
| ValidationFacts.MissingRequiredFieldReported | includes/JsonTreeRef.php:296-305 | An object missing a member that is flagged as required gets `validate-fail-missingfield` from `validate`. |
| ValidationFacts.UndeclaredMemberRejected | includes/JsonTreeRef.php:207-213 | An undeclared member under a loosely-false `additionalProperties` gets `jsonschema-invalidkey` with its key and the path titles. |
| ValidationFacts.FirstUndeclaredMemberReported | includes/JsonTreeRef.php:295-313 | When the required scan and the earlier members pass, the first undeclared member of a closed object makes `validate` fail with `jsonschema-invalidkey` for it. |
| ValidationFacts.DeclaredMemberSchema | includes/JsonTreeRef.php:203-206 | A member declared in `properties` takes that schema, named by its title or else its key. |
| ValidationFacts.AdditionalMemberSchema | includes/JsonTreeRef.php:207-217 | An undeclared member under a truthy `additionalProperties` takes that value as its schema, named by its key. |
| ValidationFacts.ClosedMemberSchema | includes/JsonTreeRef.php:207-213 | An undeclared member under a loosely-false `additionalProperties` is refused with `jsonschema-invalidkey`. |
| ValidationFacts.DefaultMemberSchema | includes/JsonTreeRef.php:218-222 | An undeclared member without `additionalProperties` takes the default schema `[]`, named by its key. |
| ValidationFacts.ItemsShareSchema | includes/JsonTreeRef.php:235-245 | Any two items resolve the same schema: both succeed or both fail, with the same fragment at index 0, each named by its own position. |
| ValidationFacts.OpenSchemaAcceptsAll | includes/JsonTreeRef.php:218-222 | A fragment that constrains nothing accepts every document. The default schema `[]` given to an undeclared member is one. |
| ValidationFacts.OpenChildrenPass | includes/JsonTreeRef.php:235-247 | Under an open fragment, every member and every item passes. |
| ValidationFacts.UndeclaredMembersNamedByKey | tests/phpunit/JsonTreeRefTest.php:150-159 | Two different undeclared members get different titles, their own keys. |
| ValidationFacts.IntegerLoosening | includes/JsonTreeRef.php:262-279 | Against 'integer', a number passes iff it is an int, or a whole double within the 64-bit range; otherwise the failure names it a 'number' (so 1e20 fails). |
| ValidationFacts.ArrayPassesForObject | includes/JsonTreeRef.php:258-261 | Every array, a list included, passes the type check for 'object'. |
| ValidationFacts.EmptyMapAccepted | tests/phpunit/JsonTreeRefTest.php:161-166 | An empty document is valid against an object schema without `properties`. |
| ValidationFacts.NullAgainstNamedType | includes/JsonTreeRef.php:267-279 | Null data against a named type gives `validate-fail-null` at the root and `validate-fail` naming 'null' below it. |
| ValidationFacts.NullTypeUnsatisfiable | includes/JsonTreeRef.php:256-267 | Nothing validates against type 'null': `getType` never names it, and null fails the loose comparison. |
| ValidationFacts.NewValueValidates | includes/JsonUtil.php:25-49 | The default value for each schema type validates against a fragment of that type. |
| JsonTree.JsonTreeRef.constructor | includes/JsonTreeRef.php:48-59 | The fields are stored as given, and `fullindex` is the full index. A ref built with a schema ref shares its parent's schema index. |
| JsonTree.JsonTreeRef.AttachSchema | includes/JsonTreeRef.php:66-74 | With a schema: a fresh index whose table is the walk's result, and the node named by the schema's title or 'Root node'. The schema ref is what `newRef` gives; `newRef`'s error is returned instead. Without a schema: the parent's index is taken. |
| JsonTree.JsonTreeRef.Title | includes/JsonTreeRef.php:82-90 | `nodename` if set, else the data's own title, else `nodeindex`. |
| JsonTree.JsonTreeRef.Root | includes/JsonTreeRef.php:153-154 | Following the parents ends at a ref without a parent, this one or an ancestor. |
| JsonTree.JsonTreeRef.FullIndex | includes/JsonTreeRef.php:138-144 | The full index starts with "json_root" and consists only of id characters. |
| JsonTree.JsonTreeRef.FullIndexFollowsDataPath | includes/JsonTreeRef.php:138-160 | The full index is "json_root" followed by ".id" for each index of the data path, in order. |
| JsonTree.JsonTreeRef.DataPath | includes/JsonTreeRef.php:152-160 | One index per level below the root: the parent's path followed by this ref's index, empty at the root. |
| JsonTree.JsonTreeRef.DataPathLoadsNode | includes/JsonTreeRef.php:146-160 | When every ref holds what its parent's array has under its index, following the data path down from the root's node loads this ref's node. |
| JsonTree.LoadExtend | includes/JsonTreeRef.php:146-160 | Loading along one more index reads that index in what the shorter path loads. |
| JsonTree.JsonTreeRef.RenamePropname | includes/JsonTreeRef.php:98-105 | The parent's array is the old one (or a new one for a null or false node) with the node put under the new key and the old key unset, both read as array keys ("5" is 5). So the node is found under the new key unless the keys coincide, the old key is gone, other keys read as before, and distinct keys stay distinct. Index and name become the new key, `fullindex` is recomputed, and nothing else changes. |
| JsonTree.JsonTreeRef.MoveEntry | includes/JsonTreeRef.php:100-104 | The parent's array after the write and the `unset`, with the properties of a rename. |
| JsonTree.JsonTreeRef.RefreshFullIndex | includes/JsonTreeRef.php:103 | The stored full index equals the one computed from the indexes. |
| JsonTree.JsonTreeRef.GetType | includes/JsonTreeRef.php:113-129 | The effective schema type `SchemaType`, or a TypeError for a non-array fragment. |
| JsonTree.JsonTreeRef.GetMappingChildRef | includes/JsonTreeRef.php:200-227 | It fails exactly when `MappingChild` does, with the same error. Otherwise it returns a new ref below this one, carrying the child's value, schema ref and name. `NewChild` gives its data path and consistency. |
| JsonTree.JsonTreeRef.PickMemberSchema | includes/JsonTreeRef.php:201-222 | The branches choose the member schema and name of `MemberSchema`. |
| JsonTree.JsonTreeRef.GetSequenceChildRef | includes/JsonTreeRef.php:235-247 | It fails exactly when `SequenceChild` does, with the same error. Otherwise it returns a new ref below this one at index i, carrying the item's value, schema ref and name. `NewChild` gives its data path and consistency. |
| JsonTree.JsonTreeRef.NewChild | includes/JsonTreeRef.php:200-247 | A child built by either method, holding what this ref's array has under its index, is a valid ref whose data path is this one's plus that index. It is consistent when this ref is. |
| JsonTree.JsonTreeRef.ChildPathTitles | includes/JsonTreeRef.php:185-192 | A child's path titles are the parent's, " -> ", then the child's title. |
| JsonTree.JsonTreeRef.PathTitlesShape | includes/JsonTreeRef.php:185-192 | `getDataPathTitles`: at the root it is the root's title. Below the root it is the parent's path titles, " -> ", then this ref's title. |
| JsonTree.JsonTreeRef.Validate | includes/JsonTreeRef.php:255-290 | `validate` returns what `Check` gives for this node, its schema ref, its index's table and its path titles. |
| JsonTree.JsonTreeRef.ValidateNode | includes/JsonTreeRef.php:255-290 | The depth-first walk from this ref equals `Check`. |
| JsonTree.JsonTreeRef.CheckType | includes/JsonTreeRef.php:256-280 | The type part of `validate` equals `TypeCheck` and, when it passes, yields the effective schema type. |
| JsonTree.JsonTreeRef.ValidateChildren | includes/JsonTreeRef.php:281-287 | The `switch` on the schema type equals `CheckChildren`. |
| JsonTree.JsonTreeRef.ValidateObjectChildren | includes/JsonTreeRef.php:295-313 | Object validation equals `CheckObject`. |
| JsonTree.JsonTreeRef.CheckRequired | includes/JsonTreeRef.php:296-305 | The loop over `properties` equals `RequiredScan`, and passes when there is no `properties` array. |
| JsonTree.JsonTreeRef.ValidateMembers | includes/JsonTreeRef.php:308-311 | The member loop returns the first failure among the members' outcomes. |
| JsonTree.JsonTreeRef.ValidateMember | includes/JsonTreeRef.php:309-310 | One pass of the member loop gives that member's outcome. |
| JsonTree.JsonTreeRef.ValidateArrayChildren | includes/JsonTreeRef.php:315-321 | The item loop returns the first failure among items 0 .. count-1. |
| JsonTree.JsonTreeRef.ValidateItem | includes/JsonTreeRef.php:317-319 | One pass of the item loop gives that item's outcome. |

## Left out

- Message texts are not modelled. `uiMessage` and `wfMessage` are replaced by the `Error` datatype, which carries the message key and the parameters.
- `getDataPathAsString` (includes/JsonTreeRef.php:171-177) is not modelled. It rests on `json_encode` string escaping.
- `JsonUtil::getSchemaArray` and `uiMessage` are not modelled. They are outside the validation engine.
- The `datapath` field is not modelled. It is always set to `[]` and never read.
- Decoding is not modelled. Values arrive decoded, with int or string keys.
- IEEE doubles are not modelled. A double is the exact real it denotes; NaN and infinities are not modelled.
- The constructor's `title ?? 'Root node'` and the `??` title defaults in child navigation treat only string and int titles as titles.
- Validation.TitleOf: a bool, float or array `title` is treated as absent, while PHP would use it as the display name.
- Only string `id` values are registered. An int, bool or float `id` becomes an integer array key in PHP, and no `$ref` (which starts with '#') can ever name one.
- SchemaIndex.JsonSchemaIndex.constructor: requires `Indexable`. The schema walk must only meet arrays, and an `id` must not be an array. PHP raises a TypeError or an illegal-offset error there instead.
- SchemaIndex.JsonSchemaIndex.IndexSubtree: requires `Indexable`, for the same reason.
- JsonTree.JsonTreeRef.AttachSchema: requires `Indexable` for a given schema, for the same reason.
- JsonTree.JsonTreeRef.constructor: requires a child ref to have an index. With a null index PHP's `getFullIndex` would throw `jsonschema-idconvert`, and a constructor cannot fail.
- JsonTree.JsonTreeRef.RenamePropname: requires a parent whose node is an array, null or false; PHP turns the last two into an array. A parent node that is a string, number or true is not modelled: PHP raises an error or writes a string offset there.
- JsonTree.JsonTreeRef.Validate: requires an attached schema ref and index. PHP needs the ref at every node, but the index only to build child refs, so in PHP a ref without an index still validates a document with no members or items. Every caller in the repository (includes/Hooks.php, includes/JsonData.php) attaches both before validating.
- JsonTree.JsonTreeRef.GetMappingChildRef: requires an attached schema and array data. Without an attached schema PHP fails with an error on null. For null data PHP reads the member as null, and for string data it reads a string offset; neither is modelled.
- JsonTree.JsonTreeRef.GetSequenceChildRef: requires an attached schema and array data, for the same reasons.
- JsonTree.JsonTreeRef.PathTitles carries no contract of its own. What it computes is stated by JsonTree.JsonTreeRef.PathTitlesShape and JsonTree.JsonTreeRef.ChildPathTitles.
- A `JInt` outside the 64-bit range stands for no PHP value. PHP's decoder turns such numbers into doubles.
- Decoded arrays are taken to hold their keys as PHP stores them: a string key is never the decimal form of an int. Child refs are asked only for keys read from the array. Only `renamePropname`, which takes an arbitrary new key, converts keys with `ArrayKey`.
- Php.IntCast: outside the 64-bit range the cast follows the engine's reduction modulo 2^64. The PHP manual calls that result undefined. NaN and infinities are not modelled.
- The `TreeRef` datatype (includes/TreeRef.php) has no row of its own. It is a record with no behaviour, and the rows for `ResolveRef`, `MappingChild` and `SequenceChild` state what each of its fields holds.
- Sharing is not modelled beyond what the fields say. A `JsonSchemaIndex` object is shared by a ref and the children built from it, and no method changes an index after construction.

## Findings

| source | as written | input that shows it | evidently intended | confidence | as-written member | corrected member |
|---|---|---|---|---|---|---|
| includes/JsonSchemaIndex.php:83-87 | The `try`/`catch` around `$this->idtable[$idref]` never fires, because reading a missing array key only warns and yields null. A dangling reference therefore becomes a null schema fragment. | A fragment `{"$ref": "#missing"}` with no fragment of id `#missing` in the index. | Throw `jsonschema-badidref` for the reference. | not executed | SchemaIndex.ResolveRefAsWritten, SchemaIndex.DanglingRefAsWritten | SchemaIndex.ResolveRef |
