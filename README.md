# titania_database_object in Dafny

This project models the active-record base class `titania_database_object`
of the Titania customisation database, and proves properties of the model.
A record has:

- a table name;
- an id field name;
- an ordered configuration (field name to options `max` and `multibyte`);
- a map of field values;
- a snapshot (`sql_data`) of the row that `load` last fetched.

It offers five operations:

- `submit` runs `insert` when the id field is falsy, and `update` otherwise.
- `insert` writes every configured field, validated, and takes the id the
  database generated.
- `update` writes only the non-id fields whose validated value the snapshot
  does not already hold, and writes nothing when no such field exists.
- `load` selects the configured columns of the current id, keeps the fetched
  row as the snapshot, and copies its configured keys into the fields.
- `delete` removes the row of the current id.

Before a value is written, `validate_property` passes it through the string
sanitiser `validate_string`:

1. `''` and `'0'` become `''`.
2. With `multibyte === false`, every octet 0x80-0xFF is deleted.
3. Otherwise, a string that is not well-formed UTF-8 becomes `''`, as does
   one that starts with a line feed. This follows the PCRE check `/^./u`.
4. `truncate_string` is called, but its result is thrown away.

Layout:

- `php_value.dfy` (module `PhpValue`): PHP scalars as a tagged `Value`,
  octets, truthiness and `empty()` on strings.
- `utf8.dfy` (module `Utf8`): the UTF-8 grammar of section 4 of RFC 3629, as
  predicates over octets, with a decomposition into characters.
- `subsequence.dfy` (module `Subsequence`): order-preserving selection.
- `sanitiser.dfy` (module `Sanitiser`): `validate_property` and
  `validate_string` as pure functions, with lemmas.
- `database_object.dfy` (module `DatabaseObject`):
  - the `Gateway` class, for the global `$db`: it keeps a ghost log of the
    statements (`SqlInsert`, `SqlUpdate`, `SqlSelect`, `SqlDelete`)
    handed to it;
  - the `Record` class, whose methods loop over the configuration as the
    source's `foreach` loops do;
  - the specification functions those methods are proved against
    (`ValidatedRow`, `ChangeSet`, `UpdateStatements`, `Loaded`);
  - lemmas that relate the operations;
  - `NoDataFoundException`.

The id that `sql_nextid()` returns and the row that `sql_fetchrow()` returns are
parameters of `Insert`/`Submit` and of `Load`.

Three details of the code shape the model:

- The comments on lines 202 and 231 promise that a string is truncated to
  `max`, but line 239 calls `truncate_string` and throws its result away, so
  the value is never shortened. `Sanitiser.ValidateString` leaves it as it is.
- `update()` never assigns `sql_data`, so after an UPDATE the snapshot still
  holds the old values and a second `update()` issues the same UPDATE again.
  `Record.Update` states that the record is unchanged (`unchanged(this)`) and
  that its statement is a function of that state. Likewise, `insert` leaves
  the snapshot as it was.
- Line 147 assigns `sql_data` before the emptiness test on line 150, so an
  empty fetch empties the snapshot. `Record.Load` states this.

## Model

| member | source | states |
|---|---|---|
| PhpValue.IsEmptyString | titania/includes/class_base_db_object.php:211 | definition of `empty()` on a string (also used on line 255): '' and '0'; a true result means at most one octet, a '0'. Characterised together with Truthy and by Sanitiser.ValidateString |
| PhpValue.Truthy | titania/includes/class_base_db_object.php:62 | a value is falsy exactly when it is null, false, 0, '' or '0' |
| Utf8.SequenceLength | titania/includes/class_base_db_object.php:225 | a lead octet announces at most four octets, and none exactly for C0, C1, 80-BF and F5-FF |
| Utf8.CharLengthFromLead | titania/includes/class_base_db_object.php:225 | a UTF-8 character is as long as its first octet announces |
| Utf8.ValidUtf8 | titania/includes/class_base_db_object.php:225 | definition of the RFC 3629 well-formedness check, read one character from the front at a time; a well-formed non-empty string starts with a lead octet. Characterised by Utf8.ConcatOfCharsIsValid and Utf8.Chars |
| Utf8.ConcatOfCharsIsValid | titania/includes/class_base_db_object.php:225 | any sequence of RFC 3629 characters, written out, passes the well-formedness check |
| Utf8.Chars | titania/includes/class_base_db_object.php:225 | conversely, a well-formed string is a sequence of RFC 3629 characters written out |
| Utf8.UniqueSplit | titania/includes/class_base_db_object.php:225 | any split of a string into RFC 3629 characters is the one Chars finds, so a string splits into characters in only one way |
| Utf8.AsciiIsValidUtf8 | titania/includes/class_base_db_object.php:219-225 | a string of octets below 0x80 is well-formed UTF-8 |
| Utf8.NeverAppearingOctets | titania/includes/class_base_db_object.php:225 | a well-formed string never holds C0, C1 or F5-FF |
| Sanitiser.AsciiOnly | titania/includes/class_base_db_object.php:217 | definition of "multibyte is set and identical to false"; then the option is falsy. Used by Sanitiser.ValidateString, whose contract characterises both branches |
| Sanitiser.MatchesLeadingChar | titania/includes/class_base_db_object.php:225 | definition of a successful `/^./u` match: well-formed, non-empty, first octet a lead octet other than a line feed. Characterised by Sanitiser.ValidateString and Sanitiser.MalformedIsEmptied |
| Sanitiser.StripHighBytes | titania/includes/class_base_db_object.php:220 | the filter never lengthens a string and leaves only octets below 0x80 |
| Sanitiser.StripConcat | titania/includes/class_base_db_object.php:220 | filtering a concatenation is concatenating the filtered parts |
| Sanitiser.StripIsSubsequence | titania/includes/class_base_db_object.php:220 | the filtered string is a subsequence of the input: the kept octets stay in order |
| Sanitiser.StripKeepsAsciiCounts | titania/includes/class_base_db_object.php:220 | each ASCII octet is kept as often as it occurs, and no octet 0x80-0xFF is kept |
| Sanitiser.StripFixedPoint | titania/includes/class_base_db_object.php:220 | the filter leaves a string unchanged exactly when the string is pure ASCII |
| Sanitiser.StripIdempotent | titania/includes/class_base_db_object.php:220 | filtering twice is filtering once |
| Sanitiser.ValidateString | titania/includes/class_base_db_object.php:209-243 | '' and '0' give ''; with multibyte false the result is the filtered input; otherwise the result is the input exactly when it is well-formed UTF-8 and does not start with a line feed, and '' otherwise; the result is always well-formed UTF-8 and never longer than the input |
| Sanitiser.ValidateProperty | titania/includes/class_base_db_object.php:190-198 | values that are not strings pass unchanged; a string stays a string, well-formed and no longer than before |
| Sanitiser.ValidateStringIdempotent | titania/includes/class_base_db_object.php:211-228 | validating a validated string changes it exactly when the first pass produced '0' |
| Sanitiser.ValidateStringNotIdempotentExample | titania/includes/class_base_db_object.php:211-221 | with multibyte false, 0xE9 followed by '0' validates to '0', which validates to '' |
| Sanitiser.AsciiBranchDeletesHighOctet | titania/includes/class_base_db_object.php:217-221 | with multibyte false, an inner 0xE9 is deleted and the octets around it are filtered as before |
| Sanitiser.MalformedIsEmptied | titania/includes/class_base_db_object.php:224-228 | unless multibyte is false, a string that is not well-formed UTF-8 becomes '' |
| DatabaseObject.Field | titania/includes/class_base_db_object.php:88 | definition of reading `$this->$name` (also on line 125): the stored value, or null for a field never assigned. Characterised by DatabaseObject.LoadedAt |
| DatabaseObject.Names | titania/includes/class_base_db_object.php:143 | definition of `array_keys($this->object_config)`: the configured names in configuration order |
| DatabaseObject.ValidatedRow | titania/includes/class_base_db_object.php:122-126 | the INSERT columns are the configured names in configuration order, the id field included, each with its validated value |
| DatabaseObject.MatchesSnapshot | titania/includes/class_base_db_object.php:91 | definition of the "value has not changed" test; it holds only for a non-null snapshot entry. Characterised by DatabaseObject.NullSnapshotNeverSuppresses |
| DatabaseObject.ChangeSet | titania/includes/class_base_db_object.php:80-97 | definition of the UPDATE columns; never more columns than configured, and never the id field. Characterised by DatabaseObject.ChangeSetMembers and DatabaseObject.ChangeSetInConfigOrder |
| DatabaseObject.UpdateStatements | titania/includes/class_base_db_object.php:99-109 | definition of what `update` issues: nothing exactly when the change set is empty, else one UPDATE of the change set for the current id value. Used by DatabaseObject.Record.Update |
| DatabaseObject.ChangeSetMembers | titania/includes/class_base_db_object.php:80-97 | a column is in the UPDATE change set exactly when it is a configured column with its validated value, is not the id field, and the snapshot has no non-null equal entry for it |
| DatabaseObject.ChangeSetInConfigOrder | titania/includes/class_base_db_object.php:80-97 | the change set lists its columns in configuration order: it is a subsequence of the validated row |
| DatabaseObject.NullSnapshotNeverSuppresses | titania/includes/class_base_db_object.php:91 | a configured non-id field whose snapshot entry is null or missing is always written |
| DatabaseObject.LoadThenUpdateIsSilent | titania/includes/class_base_db_object.php:80-101 | right after a load whose row held a non-null value for every non-id field, and validation would change none of them, the change set is empty, so `update` writes nothing |
| DatabaseObject.Loaded | titania/includes/class_base_db_object.php:155-163 | definition of the fields after `load`; its keys are the old keys plus the row's configured keys. Characterised by DatabaseObject.LoadedAt and DatabaseObject.LoadStep |
| DatabaseObject.LoadedAt | titania/includes/class_base_db_object.php:155-163 | after `load`, a field holds the row's value when the row has that key and it is configured, and its old value otherwise |
| DatabaseObject.LoadStep | titania/includes/class_base_db_object.php:155-163 | handling one more key of the row copies it exactly when it is configured |
| DatabaseObject.RowOf | titania/includes/class_base_db_object.php:128 | definition of the row an INSERT stores: no columns give an empty row, and the last column's value is under its name. Characterised by DatabaseObject.RowOfLookup and DatabaseObject.RowOfKeyIndex |
| DatabaseObject.StoredRow | titania/includes/class_base_db_object.php:128-131 | definition of the row the database holds after `insert`: the id column holds the generated id when the id field is configured. Characterised by DatabaseObject.StoredRowKeys and DatabaseObject.InsertThenLoadRoundTrip |
| DatabaseObject.RowOfLookup | titania/includes/class_base_db_object.php:128 | in the row stored from an INSERT with distinct column names, each column's value is found under its name |
| DatabaseObject.RowOfKeyIndex | titania/includes/class_base_db_object.php:128 | every key of the stored row is the name of an inserted column |
| DatabaseObject.ValidatedRowDistinct | titania/includes/class_base_db_object.php:123-126 | distinct configured names give distinct INSERT column names |
| DatabaseObject.StoredRowKeys | titania/includes/class_base_db_object.php:123-129 | the stored row's keys are exactly the configured names |
| DatabaseObject.InsertThenLoadRoundTrip | titania/includes/class_base_db_object.php:118-165 | when validation changes no value, loading the row an insert stored finds it (given one column) and gives back every field as it was after insert, the generated id included |
| DatabaseObject.Gateway.Query | titania/includes/class_base_db_object.php:109 | issuing a statement appends it to the gateway's log |
| DatabaseObject.Record.constructor | titania/includes/class_base_db_object.php:36-51 | a new record has the given table, id field and configuration (whose names are distinct), no field values and an empty snapshot |
| DatabaseObject.Record.Submit | titania/includes/class_base_db_object.php:58-70 | with a falsy id it issues the INSERT and takes the new id; otherwise it issues what `update` issues and changes no field; the snapshot is never changed |
| DatabaseObject.Record.Update | titania/includes/class_base_db_object.php:77-110 | no statement when the change set is empty, else exactly one UPDATE of the change set for the current id value; the record itself is unchanged |
| DatabaseObject.Record.Insert | titania/includes/class_base_db_object.php:118-132 | exactly one INSERT of the validated row; afterwards the id field holds the generated id, no other field changed and the snapshot is untouched |
| DatabaseObject.Record.Load | titania/includes/class_base_db_object.php:139-166 | exactly one SELECT of the configured names for the current id; the snapshot becomes the fetched row even when empty; an empty row returns false and leaves the fields; otherwise true, with the row's configured keys copied and every other field unchanged |
| DatabaseObject.Record.Delete | titania/includes/class_base_db_object.php:173-180 | exactly one DELETE for the current id value; the record itself is unchanged |
| DatabaseObject.NewNoDataFound | titania/includes/class_base_db_object.php:253-261 | the exception keeps its code; an empty name ('' or '0') gives the default message, any other name is the message, so the message is never empty |

## Left out

- SQL text is not modelled. That covers `sql_build_array`, quoting and escaping, `sql_freeresult`, and the rest of the database driver. A statement is logged as its kind, table, columns and id value.
- Errors are not modelled. Query failures raised by the driver propagate unchanged in the source; the model has none.
- DatabaseObject.ChangeSetMembers: compares a snapshot entry with the validated value by equality of tagged values, not by PHP's loose `==` (line 91), so type juggling such as `'5' == 5` is not modelled.
- `titania_object` is not part of this model. It supplies magic property access and `object_config`. Fields are an explicit map, a field never assigned reads as null, and the configuration is an ordered sequence of entries with distinct names.
- Sanitiser.ValidateString: the truncation step (lines 231-240) hands the value to `truncate_string` and discards the result, so the model leaves the value unchanged and asserts no length bound from `max`. Loading `functions_content` on line 236 (file inclusion with undefined path variables) is not modelled.
- The PCRE engine is not modelled. `/^./u` is stated directly: the subject is well-formed UTF-8 (RFC 3629 section 4) and its first octet is not a line feed, which assumes PCRE's default newline (LF).
- The include guard and the `require` of the base class (lines 14-22) are not modelled.
- `sql_fetchrow` returning `false` and returning an empty array are both an empty row.
- DatabaseObject.Record.Load: visits the fetched row's keys in an unspecified order, where PHP's `foreach` follows the row's order. The keys are distinct, so the resulting fields are the same.
- DatabaseObject.NewNoDataFound: takes the name as a string, so PHP's `empty()` on other types (null, 0, false) is not modelled. The `Exception` base class is not modelled.
- Floats and arrays are not modelled. `validate_property` (line 192) passes them through unchanged, and `!$x` (line 62) treats 0.0 and an empty array as falsy; a `Value` is null, a boolean, an integer or a string.
- DatabaseObject.Record.Insert: the generated id is an `int` parameter, so `sql_nextid()` returning `false` is not modelled. DatabaseObject.Record.Submit takes the same parameter.
- DatabaseObject.NewNoDataFound: takes both arguments, where the source's constructor defaults them (`$name = ''`, `$code = 0`, line 253); a caller omitting them is modelled by passing `''` and `0`.
- Concurrency is not modelled: the source is single-threaded.
