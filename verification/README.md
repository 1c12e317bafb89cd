# ThumbnailHelper, modelled in Dafny

The Upload plugin's `ThumbnailHelper` is a view helper. It takes a record
(model name → field name → value), a `"Model.field"` reference and a
thumbnail size name. From these it works out the web-relative path of the
thumbnail that the Upload behaviour generated for that field. `src`
returns that path, and `image` hands it to the HTML helper's image tag.

All the work happens in `_getSource`:

1. It asks the framework three things, in order: whether the model exists,
   whether it has the field, and whether the Upload behaviour is attached.
   The first "no" ends the call with a warning.
2. It picks a directory token. The record's dir field comes first (the
   field named by the Upload settings' `fields.dir`). Failing that, it uses
   the primary key, but only when the path method is `_getPathPrimaryKey`.
   With neither, the call fails with a warning.
3. It builds the file name from the `thumbnailName` template. `{size}` is
   replaced first and then `{filename}`, which becomes the *field* name. The
   extension is the last `.`-segment of the stored value.
4. It joins `thumbnailPath` (with every `rootDir` occurrence deleted), the
   token and the file name with the separator `DS`. It then deletes every
   `webroot` from the joined path.

The model is pure, like the source: datatypes, functions and lemmas.

- `wrappers.dfy` holds `Option` and `Result`.
- `php_strings.dfy` (module `PhpStrings`) models PHP's `explode`,
  `implode`, `end` and `str_replace`. `str_replace` has both forms: one
  search string, and the array form. For a non-empty search string,
  `str_replace` is proved equal to `implode(replace, explode(search, s))`;
  an empty search string leaves the subject unchanged. `explode` is pinned down by three
  facts: its round trip, its pieces being free of the separator, and its
  leftmost split.
- `thumbnail.dfy` (module `Thumbnail`) holds the helper. This covers the
  constructor's option merge, `__error` (a warning is returned only when
  the `warnings` option is on), `_getSource` as `GetSource` returning a
  `Result`, and `src` and `image`.

Some inputs are parameters rather than framework calls:

- The framework's answers are the `ModelInfo` datatype. It holds three
  booleans, the primary key name and the field's Upload settings.
- The path separator `DS` is a parameter `ds`.
- Warnings come back as a list of `Warning` values in the `Output` of `src`
  and `image`.

## Behaviour worth noting

- `str_replace` deletes every non-overlapping occurrence of `rootDir` and
  of `webroot` in one left-to-right pass, without rescanning what is left.
  `WebrootRemovalSinglePass` shows `webwebrootroot` becoming `webroot`.
- When `_getSource` fails, `src` and `image` raise `_getSource`'s warning
  and then their own, each only when warnings are on (`FailureWarnings`).
- `_getSource` does not fail when the stored value is missing. PHP's
  `explode` reads the missing value (null) as `""`, so the extension is
  empty. Only `src` checks for the missing value.
- A reference must contain exactly one `.` (`ValidReference`); a malformed
  reference is not modelled as an error.

## Model

| member | source | states |
|---|---|---|
| `PhpStrings.Explode` | View/Helper/ThumbnailHelper.php:132 | `explode` always yields at least one piece |
| `PhpStrings.ImplodeExplode` | View/Helper/ThumbnailHelper.php:132 | joining `explode`'s pieces with the separator gives back the input |
| `PhpStrings.ExplodePiecesFree` | View/Helper/ThumbnailHelper.php:132 | no piece of `explode` contains the separator |
| `PhpStrings.ExplodeLeftmost` | View/Helper/ThumbnailHelper.php:132 | every split is at the leftmost occurrence: no match starts inside a piece that a separator follows |
| `PhpStrings.Last` | View/Helper/ThumbnailHelper.php:133 | `end`: the last element of a non-empty list; no contract of its own, stated for the extension by `ExtensionIsLastSegment` |
| `PhpStrings.StrReplace` | View/Helper/ThumbnailHelper.php:134-136 | `str_replace` with one search string; no contract of its own, stated in full by `StrReplaceIsImplodeExplode` (non-empty search string) and, for an empty search string, by `BasePathDeletesRootDir` for `rootDir`, which comes back unchanged |
| `PhpStrings.StrReplaceIsImplodeExplode` | View/Helper/ThumbnailHelper.php:134-136 | `str_replace(search, rep, s)` equals `implode(rep, explode(search, s))`: one left-to-right pass over non-overlapping occurrences, with no rescan |
| `PhpStrings.StrReplaceAbsent` | View/Helper/ThumbnailHelper.php:134-136 | a string that does not contain the search string comes back unchanged |
| `PhpStrings.StrReplaceAppend` | View/Helper/ThumbnailHelper.php:136 | a trailing character that is not in the search string stays trailing after the replacement |
| `PhpStrings.StrReplaceEach` | View/Helper/ThumbnailHelper.php:131 | the array form of `str_replace`; no contract of its own, stated by `StrReplaceEachConcat` and `StrReplaceEachPair` |
| `PhpStrings.StrReplaceEachPair` | View/Helper/ThumbnailHelper.php:131 | the array form of `str_replace` applies its pairs one after the other, each to the previous output |
| `PhpStrings.StrReplaceEachConcat` | View/Helper/ThumbnailHelper.php:131 | running the array form over two search lists back to back is running it over the second list on the output of the first: a later search string sees the earlier replacements |
| `Thumbnail.NewHelper` | View/Helper/ThumbnailHelper.php:17-31 | the settings are the defaults merged with the caller's options: every option is kept, and `warnings` is true unless the options set it |
| `Thumbnail.WarningsDefault` | View/Helper/ThumbnailHelper.php:17-30 | warnings are on exactly when the options leave `warnings` out or set it true |
| `Thumbnail.WarningsOn` | View/Helper/ThumbnailHelper.php:141 | the `$this->settings['warnings']` test, a missing key reading as off; no contract of its own, stated by `Emit` and `WarningsDefault` |
| `Thumbnail.Emit` | View/Helper/ThumbnailHelper.php:140-144 | `__error` yields the one warning when the option is on and nothing when it is off |
| `Thumbnail.Lookup` | View/Helper/ThumbnailHelper.php:112-119 | a `Model.key` lookup succeeds exactly when the model row has the key, and yields its value |
| `Thumbnail.ParseReference` | View/Helper/ThumbnailHelper.php:93 | `list($model, $field) = explode('.', $ref)`: the two parts joined by a dot give back the reference |
| `Thumbnail.ReferenceRoundTrip` | View/Helper/ThumbnailHelper.php:93 | `model.field` with dot-free parts is a valid reference that splits back into `(model, field)` |
| `Thumbnail.ReferenceSplits` | View/Helper/ThumbnailHelper.php:93 | a valid reference is exactly `model ++ "." ++ field` with both parts dot-free |
| `Thumbnail.DirectoryToken` | View/Helper/ThumbnailHelper.php:110-129 | a resolved token is always one of the model row's values |
| `Thumbnail.DirFieldTakesPrecedence` | View/Helper/ThumbnailHelper.php:112-115 | when the dir field is present, the token is its value, whatever the path method and the primary key |
| `Thumbnail.PrimaryKeyFallback` | View/Helper/ThumbnailHelper.php:116-129 | without a dir field, a token exists iff the primary key is present and the path method is `_getPathPrimaryKey`; the token is then the key's value |
| `Thumbnail.ThumbnailName` | View/Helper/ThumbnailHelper.php:131 | the file name template after substitution; no contract of its own, stated by `ThumbnailNameInOrder` and `ThumbnailNameRescansSize` |
| `Thumbnail.ThumbnailNameInOrder` | View/Helper/ThumbnailHelper.php:131 | the file name replaces `{size}` by the size name, then `{filename}` by the field name, in that order |
| `Thumbnail.ThumbnailNameRescansSize` | View/Helper/ThumbnailHelper.php:131 | for example, size name `{filename}` on template `{size}` with field `avatar` gives `avatar`: the `{filename}` brought in by the size name is replaced too |
| `Thumbnail.Extension` | View/Helper/ThumbnailHelper.php:132-133 | `end(explode('.', $value))`; no contract of its own, stated in full by `ExtensionIsLastSegment` |
| `Thumbnail.ExtensionIsLastSegment` | View/Helper/ThumbnailHelper.php:130-133 | the extension is a dot-free suffix of the stored value; a dot precedes it when the value has one, and it is the whole value when the value has none |
| `Thumbnail.BasePath` | View/Helper/ThumbnailHelper.php:134 | `thumbnailPath` without `rootDir`; no contract of its own, stated in full by `BasePathDeletesRootDir` |
| `Thumbnail.BasePathDeletesRootDir` | View/Helper/ThumbnailHelper.php:134 | for a non-empty `rootDir`, the base path is `thumbnailPath` with every leftmost non-overlapping occurrence of `rootDir` deleted; an empty `rootDir` leaves `thumbnailPath` unchanged |
| `Thumbnail.AssembledPath` | View/Helper/ThumbnailHelper.php:135 | the base path, the directory token, the file name and the extension joined with `DS` and a dot; no contract of its own, stated by `GetSourceSuccess` |
| `Thumbnail.GetSource` | View/Helper/ThumbnailHelper.php:92-137 | `_getSource` succeeds exactly when the model is registered, has the field, has the Upload behaviour and a directory token resolves; every failure names the referenced model; stated in full by `GetSourceChecksInOrder` and `GetSourceSuccess` |
| `Thumbnail.GetSourceChecksInOrder` | View/Helper/ThumbnailHelper.php:92-129 | an unknown model, a missing field, an absent Upload behaviour and an unresolvable token each fail with their own warning, checked in that order |
| `Thumbnail.EarlyFailureIgnoresRecord` | View/Helper/ThumbnailHelper.php:94-105 | a failure of the first three checks does not depend on the record, the size, the settings or the separator |
| `Thumbnail.GetSourceSuccess` | View/Helper/ThumbnailHelper.php:130-136 | on success the result is `basePath ++ DS ++ token ++ DS ++ name ++ "." ++ ext` cut at every leftmost non-overlapping `webroot` and rejoined; no remaining piece contains `webroot` |
| `Thumbnail.WebrootFreeUnchanged` | View/Helper/ThumbnailHelper.php:136 | a path without `webroot` is returned exactly as assembled |
| `Thumbnail.WebrootRemovalSinglePass` | View/Helper/ThumbnailHelper.php:136 | the removal does not rescan: `webwebrootroot` becomes `webroot`, which still contains `webroot` |
| `Thumbnail.GetSourceExample` | View/Helper/ThumbnailHelper.php:92-137 | for `User.avatar` = `pic.jpg` in directory `42`, size `small`, the path is `/thumbs/42/avatar_small.jpg` |
| `Thumbnail.SourceWarnings` | View/Helper/ThumbnailHelper.php:94-129 | `_getSource` raises its failure's warning (when on) and nothing on success |
| `Thumbnail.Src` | View/Helper/ThumbnailHelper.php:44-54 | `src` yields a path iff `_getSource` succeeds and the stored value is present; the path is `_getSource`'s, with no warnings |
| `Thumbnail.FailureWarnings` | View/Helper/ThumbnailHelper.php:44-79 | on failure `src` and `image` each raise `_getSource`'s warning and then their own, each only when warnings are on; `src` alone also warns for a missing stored value |
| `Thumbnail.Image` | View/Helper/ThumbnailHelper.php:68-79 | `image` as written renders a path iff `_getSource` succeeds, whether or not a stored value exists |
| `Thumbnail.ImageIgnoresMissingValue` | View/Helper/ThumbnailHelper.php:68-79 | with the stored value missing and a resolvable token, `image` still renders a path ending in a bare `.`, while `src` fails |
| `Thumbnail.GetSourceMissingValueExample` | View/Helper/ThumbnailHelper.php:92-137 | `_getSource` succeeds with `/thumbs/42/thumb.` on a row with `avatar_dir` = `42` and no `avatar` |
| `Thumbnail.ImageMissingValueExample` | View/Helper/ThumbnailHelper.php:68-79 | on that row `image` renders `/thumbs/42/thumb.`, while `src` and the corrected `image` yield nothing |
| `Thumbnail.ImageChecked` | View/Helper/ThumbnailHelper.php:44-79 | the corrected `image` renders a path iff `_getSource` succeeds and the stored value is present; the path is `_getSource`'s, with no warnings |

## Findings

| source | as written | input that shows it | evidently intended | confidence | as-written member | corrected member |
|---|---|---|---|---|---|---|
| View/Helper/ThumbnailHelper.php:73 | `image` tests `$src === null` twice and never tests `$thumbName` | row `User` = {`avatar_dir`: `42`} with no `avatar`; thumbnail path `/thumbs`, root `/app/webroot`, template `thumb`: `image` renders `/thumbs/42/thumb.` where `src` fails | a null test of `$thumbName` beside that of `$src`, the same test as `src` | high; not executed | `Thumbnail.ImageMissingValueExample` | `Thumbnail.ImageChecked` |

`Thumbnail.Image` keeps the behaviour as written. `Thumbnail.ImageChecked`
is the corrected entry point.

## Left out

- The framework lookups are replaced by inputs. `ClassRegistry::init`,
  `$Model->hasField`, `$Model->Behaviors->attached('Upload')`,
  `$Model->primaryKey` and `$Upload->settings[$model][$field]` become the
  fields of `ModelInfo`. A field without Upload settings, which would make
  PHP read null settings, is not modelled.
- `Set::check` and `Set::extract` become plain key presence and lookup in
  the model's row. Their path parsing is not modelled. This covers numeric
  keys, dotted dir-field names and nested related rows.
- Record values are strings. An absent key stands for PHP null. Integer
  values and keys present with a null value are not modelled.
- Helper options are booleans. PHP truthiness of other option values is not
  modelled, and neither is `array_merge`'s renumbering of integer keys.
- `Html->image` markup, the HTML attributes argument and `$this->output`
  are left out. `image` is modelled as the path it would render, or
  nothing.
- Engine notices raised while a warning message is built are not modelled.
  `src` interpolates the `$data` array into its message, which PHP reports
  as an array-to-string conversion notice whether or not warnings are on.
  The warnings the model returns are only those of the helper's own
  `__error` calls.
- The warning text and its translation (`__d`) are left out, and so is
  `trigger_error`. A warning is a `Warning` value naming the failure.
- `DS` is the parameter `ds`. The platform constant is not modelled.
- A reference without exactly one `.` is excluded by `ValidReference`.
  PHP's notice for a missing second part, and its dropping of extra parts,
  are not modelled.
- The Upload settings' `path` is part of `UploadSettings` but plays no
  part in the result, as in the source.
