/**
 * The Upload plugin's ThumbnailHelper: given a record, a "Model.field"
 * reference and a thumbnail size name, it works out the web-relative path
 * of the thumbnail the Upload behaviour generated for that field.
 *
 * The framework's model registry and behaviour introspection are inputs
 * (ModelInfo); the PHP warnings the helper raises are returned as a list
 * of Warning values instead of being signalled.
 */
module Thumbnail {
  import opened Wrappers
  import opened PhpStrings

  /** A model row: model name -> field name -> stored value. */
  type Record = map<string, map<string, string>>

  /** The Upload behaviour's settings for one model field. */
  datatype UploadSettings = UploadSettings(
    path: string,           // read by the helper but never used
    dirField: string,       // settings['fields']['dir']
    pathMethod: string,
    thumbnailName: string,  // template with {size} and {filename}
    rootDir: string,
    thumbnailPath: string)

  /**
   * What the framework answers about the referenced model: whether the
   * registry knows it, whether it has the field, whether the Upload
   * behaviour is attached, its primary key name, and the Upload settings
   * of the field.
   */
  datatype ModelInfo = ModelInfo(
    registered: bool,
    hasField: bool,
    uploadAttached: bool,
    primaryKey: string,
    upload: UploadSettings)

  /** The failures the helper reports, one per distinct message. */
  datatype Warning =
    | ModelNotFound(model: string)
    | FieldNotFound(model: string, field: string)
    | UploadNotAttached(model: string)
    | DirectoryUnresolved(model: string, field: string)
    | SourceOrDirectoryMissing(model: string, field: string)

  /** The helper's option array; option values are booleans here. */
  datatype Helper = Helper(settings: map<string, bool>)

  /** What `src` or `image` hands back, with the warnings raised on the way. */
  datatype Output = Output(value: Option<string>, warnings: seq<Warning>)

  const DefaultOptions: map<string, bool> := map["warnings" := true]
  const PrimaryKeyPathMethod := "_getPathPrimaryKey"
  const Webroot := "webroot"

  // ---------------------------------------------------------------------
  // Helper construction and warnings

  /** The constructor: `array_merge` of the defaults with the caller's options. */
  function NewHelper(options: map<string, bool>): (h: Helper)
    ensures h.settings.Keys == options.Keys + {"warnings"}
    ensures forall k :: k in options ==> h.settings[k] == options[k]
    ensures "warnings" !in options ==> h.settings["warnings"]
  {
    Helper(DefaultOptions + options)
  }

  /** `$this->settings['warnings']`, a missing key reading as false. */
  predicate WarningsOn(h: Helper) {
    "warnings" in h.settings && h.settings["warnings"]
  }

  /** `__error`: the warning is raised only when the warnings option is on. */
  function Emit(h: Helper, w: Warning): (ws: seq<Warning>)
    ensures WarningsOn(h) ==> ws == [w]
    ensures !WarningsOn(h) ==> ws == []
  {
    if WarningsOn(h) then [w] else []
  }

  /** Warnings are on unless the caller's options switch them off. */
  lemma WarningsDefault(options: map<string, bool>)
    ensures WarningsOn(NewHelper(options)) <==> ("warnings" !in options || options["warnings"])
  {
  }

  // ---------------------------------------------------------------------
  // Pieces of the path

  /** A "Model.field" reference has exactly one dot. */
  predicate ValidReference(ref: string) {
    |Explode(".", ref)| == 2
  }

  /** `list($model, $field) = explode('.', $ref)`. */
  function ParseReference(ref: string): (mf: (string, string))
    requires ValidReference(ref)
    ensures mf.0 + "." + mf.1 == ref
  {
    var parts := Explode(".", ref);
    ImplodeExplode(".", ref);
    assert parts[1..] == [parts[1]];
    (parts[0], parts[1])
  }

  /** `Set::check` / `Set::extract` on a "Model.key" path: presence and lookup. */
  function Lookup(data: Record, model: string, key: string): (v: Option<string>)
    ensures v.Some? <==> model in data && key in data[model]
    ensures v.Some? ==> v.value == data[model][key]
  {
    if model in data && key in data[model] then Some(data[model][key]) else None
  }

  /**
   * The directory token: the record's dir field if present, else the
   * primary key when the path method is the primary-key one, else none.
   */
  function DirectoryToken(data: Record, model: string, upload: UploadSettings, primaryKey: string): (token: Option<string>)
    ensures token.Some? ==> model in data && token.value in data[model].Values
  {
    if Lookup(data, model, upload.dirField).Some? then Lookup(data, model, upload.dirField)
    else if Lookup(data, model, primaryKey).Some? && upload.pathMethod == PrimaryKeyPathMethod then
      Lookup(data, model, primaryKey)
    else None
  }

  /** `{size}` then `{filename}` substituted into the thumbnail name template. */
  function ThumbnailName(template: string, size: string, field: string): string {
    StrReplaceEach(["{size}", "{filename}"], [size, field], template)
  }

  /** `end(explode('.', $value))`: the file extension of a stored value. */
  function Extension(value: string): string {
    Last(Explode(".", value))
  }

  /** The thumbnail directory with every occurrence of the root directory deleted. */
  function BasePath(upload: UploadSettings): string {
    StrReplace(upload.thumbnailPath, upload.rootDir, "")
  }

  /** The path before the `webroot` removal. */
  function AssembledPath(upload: UploadSettings, token: string, size: string, field: string, stored: string, ds: string): string {
    BasePath(upload) + ds + token + ds + ThumbnailName(upload.thumbnailName, size, field) + "." + Extension(stored)
  }

  // ---------------------------------------------------------------------
  // _getSource, src and image

  /**
   * `_getSource`: the thumbnail path of `ref` at size `size`, or the
   * failure that `__error` reports. A missing stored value reads as PHP
   * null, which `explode` treats as the empty string.
   */
  function GetSource(ref: string, size: string, data: Record, info: ModelInfo, ds: string): (r: Result<string, Warning>)
    requires ValidReference(ref)
    ensures r.Success? <==>
      (info.registered && info.hasField && info.uploadAttached &&
       DirectoryToken(data, ParseReference(ref).0, info.upload, info.primaryKey).Some?)
    ensures r.Failure? ==> r.error.model == ParseReference(ref).0
  {
    var (model, field) := ParseReference(ref);
    if !info.registered then Failure(ModelNotFound(model))
    else if !info.hasField then Failure(FieldNotFound(model, field))
    else if !info.uploadAttached then Failure(UploadNotAttached(model))
    else match DirectoryToken(data, model, info.upload, info.primaryKey)
      case None => Failure(DirectoryUnresolved(model, field))
      case Some(token) =>
        var stored := Lookup(data, model, field).GetOr("");
        Success(StrReplace(AssembledPath(info.upload, token, size, field, stored, ds), Webroot, ""))
  }

  /** The warnings `_getSource` raises itself. */
  function SourceWarnings(h: Helper, r: Result<string, Warning>): (ws: seq<Warning>)
    ensures r.Success? ==> ws == []
    ensures r.Failure? ==> ws == Emit(h, r.error)
  {
    if r.Failure? then Emit(h, r.error) else []
  }

  /**
   * `src`: the path, or nothing when `_getSource` failed or the record
   * has no stored value for the field.
   */
  function Src(h: Helper, ref: string, size: string, data: Record, info: ModelInfo, ds: string): (out: Output)
    requires ValidReference(ref)
    ensures out.value.Some? <==>
      GetSource(ref, size, data, info, ds).Success? && Lookup(data, ParseReference(ref).0, ParseReference(ref).1).Some?
    ensures out.value.Some? ==> out.value.value == GetSource(ref, size, data, info, ds).value && out.warnings == []
  {
    var (model, field) := ParseReference(ref);
    var stored := Lookup(data, model, field);
    var src := GetSource(ref, size, data, info, ds);
    if src.Failure? || stored.None? then
      Output(None, SourceWarnings(h, src) + Emit(h, SourceOrDirectoryMissing(model, field)))
    else
      Output(Some(src.value), [])
  }

  /**
   * `image`, as written: the path handed to `Html->image`. Its null check
   * tests `_getSource`'s result twice and never the stored value.
   */
  function Image(h: Helper, ref: string, size: string, data: Record, info: ModelInfo, ds: string): (out: Output)
    requires ValidReference(ref)
    ensures out.value.Some? <==> GetSource(ref, size, data, info, ds).Success?
    ensures out.value.Some? ==> out.value.value == GetSource(ref, size, data, info, ds).value && out.warnings == []
  {
    var (model, field) := ParseReference(ref);
    var src := GetSource(ref, size, data, info, ds);
    if src.Failure? || src.Failure? then
      Output(None, SourceWarnings(h, src) + Emit(h, SourceOrDirectoryMissing(model, field)))
    else
      Output(Some(src.value), [])
  }

  /**
   * `image` with the null check it evidently meant: it tests the stored
   * value beside `_getSource`'s result, which makes its decision and its
   * warnings those of `src`.
   */
  function ImageChecked(h: Helper, ref: string, size: string, data: Record, info: ModelInfo, ds: string): (out: Output)
    requires ValidReference(ref)
    ensures out.value.Some? <==>
      GetSource(ref, size, data, info, ds).Success? && Lookup(data, ParseReference(ref).0, ParseReference(ref).1).Some?
    ensures out.value.Some? ==> out.value.value == GetSource(ref, size, data, info, ds).value && out.warnings == []
  {
    Src(h, ref, size, data, info, ds)
  }

  // ---------------------------------------------------------------------
  // The reference "Model.field"

  /** A model and a field name without dots make a reference that parses back to them. */
  lemma ReferenceRoundTrip(model: string, field: string)
    requires '.' !in model && '.' !in field
    ensures ValidReference(model + "." + field)
    ensures ParseReference(model + "." + field) == (model, field)
  {
    ExplodeAtFirst('.', model, field);
    ContainsChar(field, '.');
    ExplodeAbsent(".", field);
  }

  /** A valid reference is a dot-free model name, a dot and a dot-free field name. */
  lemma ReferenceSplits(ref: string)
    requires ValidReference(ref)
    ensures var (model, field) := ParseReference(ref);
      ref == model + "." + field && '.' !in model && '.' !in field
  {
    var parts := Explode(".", ref);
    ImplodeExplode(".", ref);
    ExplodePiecesFree(".", ref);
    ContainsChar(parts[0], '.');
    ContainsChar(parts[1], '.');
    assert parts[1..] == [parts[1]];
  }

  // ---------------------------------------------------------------------
  // The directory token

  /**
   * The record's dir field wins whenever it is present, whatever the path
   * method and whether or not a primary key is present.
   */
  lemma DirFieldTakesPrecedence(data: Record, model: string, upload: UploadSettings, primaryKey: string)
    requires model in data && upload.dirField in data[model]
    ensures DirectoryToken(data, model, upload, primaryKey) == Some(data[model][upload.dirField])
  {
  }

  /**
   * Without a dir field, the primary key is the token exactly when it is
   * present and the path method is the primary-key one.
   */
  lemma PrimaryKeyFallback(data: Record, model: string, upload: UploadSettings, primaryKey: string)
    requires Lookup(data, model, upload.dirField).None?
    ensures DirectoryToken(data, model, upload, primaryKey).Some? <==>
      (Lookup(data, model, primaryKey).Some? && upload.pathMethod == PrimaryKeyPathMethod)
    ensures DirectoryToken(data, model, upload, primaryKey).Some? ==>
      DirectoryToken(data, model, upload, primaryKey).value == data[model][primaryKey]
  {
  }

  // ---------------------------------------------------------------------
  // The file name

  /** The two substitutions happen one after the other: `{size}` first. */
  lemma ThumbnailNameInOrder(template: string, size: string, field: string)
    ensures ThumbnailName(template, size, field) ==
      StrReplace(StrReplace(template, "{size}", size), "{filename}", field)
  {
    StrReplaceEachPair("{size}", size, "{filename}", field, template);
  }

  /**
   * Because of that order, a `{filename}` brought in by the size name is
   * itself replaced by the field name.
   */
  lemma ThumbnailNameRescansSize()
    ensures ThumbnailName("{size}", "{filename}", "avatar") == "avatar"
  {
    ThumbnailNameInOrder("{size}", "{filename}", "avatar");
    StrReplaceHit("{size}", "", "{filename}");
    StrReplaceHit("{filename}", "", "avatar");
    assert "{size}" + "" == "{size}" && "{filename}" + "" == "{filename}";
  }

  /**
   * The extension is the last dot-separated segment of the stored value:
   * a dot-free suffix of it, preceded by a dot when the value has one, and
   * the whole value when it has none.
   */
  lemma {:induction false} ExtensionIsLastSegment(value: string)
    ensures var ext := Extension(value);
      && '.' !in ext
      && |ext| <= |value| && value[|value| - |ext|..] == ext
      && ('.' !in value ==> ext == value)
      && ('.' in value ==> |ext| < |value| && value[|value| - |ext| - 1] == '.')
  {
    var parts := Explode(".", value);
    var ext := Last(parts);
    ExplodePiecesFree(".", value);
    ContainsChar(ext, '.');
    ContainsChar(value, '.');
    if '.' in value {
      ExplodePresent(".", value);
      ImplodeExplode(".", value);
      ImplodeLast(".", parts);
      var stem := Implode(".", parts[..|parts| - 1]);
      assert value == stem + "." + ext;
      assert value[|value| - |ext|..] == ext;
      assert value[|value| - |ext| - 1] == '.';
    } else {
      ExplodeAbsent(".", value);
    }
  }

  /**
   * The base path deletes every occurrence of the root directory, in one
   * pass; an empty root directory leaves the thumbnail directory as it is.
   */
  lemma BasePathDeletesRootDir(upload: UploadSettings)
    ensures upload.rootDir != [] ==>
      BasePath(upload) == Implode("", Explode(upload.rootDir, upload.thumbnailPath))
    ensures upload.rootDir == [] ==> BasePath(upload) == upload.thumbnailPath
  {
    if upload.rootDir != [] {
      StrReplaceIsImplodeExplode(upload.thumbnailPath, upload.rootDir, "");
    }
  }

  // ---------------------------------------------------------------------
  // _getSource

  /**
   * The checks run in order, and a failing check ends the call with its own
   * warning whatever the record, the size and the Upload settings are.
   */
  lemma GetSourceChecksInOrder(ref: string, size: string, data: Record, info: ModelInfo, ds: string)
    requires ValidReference(ref)
    ensures var (model, field) := ParseReference(ref);
      var r := GetSource(ref, size, data, info, ds);
      && (!info.registered ==> r == Failure(ModelNotFound(model)))
      && (info.registered && !info.hasField ==> r == Failure(FieldNotFound(model, field)))
      && (info.registered && info.hasField && !info.uploadAttached ==> r == Failure(UploadNotAttached(model)))
      && (info.registered && info.hasField && info.uploadAttached ==>
            (r.Failure? <==> DirectoryToken(data, model, info.upload, info.primaryKey).None?))
      && (r.Failure? && info.registered && info.hasField && info.uploadAttached ==>
            r == Failure(DirectoryUnresolved(model, field)))
  {
  }

  /** An early failure does not look at the record, the size, the settings or the separator. */
  lemma EarlyFailureIgnoresRecord(ref: string, size: string, size': string, data: Record, data': Record,
                                  info: ModelInfo, info': ModelInfo, ds: string, ds': string)
    requires ValidReference(ref)
    requires info'.registered == info.registered && info'.hasField == info.hasField
    requires info'.uploadAttached == info.uploadAttached
    requires !info.registered || !info.hasField || !info.uploadAttached
    ensures GetSource(ref, size, data, info, ds) == GetSource(ref, size', data', info', ds')
    ensures GetSource(ref, size, data, info, ds).Failure?
  {
  }

  /**
   * On success the result is the assembled path
   * `basePath ++ ds ++ token ++ ds ++ thumbName ++ "." ++ ext` with every
   * non-overlapping occurrence of `webroot` cut out, left to right: the
   * pieces between the occurrences, joined. None of the pieces contains
   * `webroot`, and the assembled path ends in the extension.
   */
  lemma GetSourceSuccess(ref: string, size: string, data: Record, info: ModelInfo, ds: string)
    requires ValidReference(ref)
    requires info.registered && info.hasField && info.uploadAttached
    requires DirectoryToken(data, ParseReference(ref).0, info.upload, info.primaryKey).Some?
    ensures var (model, field) := ParseReference(ref);
      var token := DirectoryToken(data, model, info.upload, info.primaryKey).value;
      var stored := Lookup(data, model, field).GetOr("");
      var assembled := BasePath(info.upload) + ds + token + ds
        + StrReplace(StrReplace(info.upload.thumbnailName, "{size}", size), "{filename}", field)
        + "." + Extension(stored);
      var pieces := Explode(Webroot, assembled);
      && GetSource(ref, size, data, info, ds) == Success(Implode("", pieces))
      && (forall k :: 0 <= k < |pieces| ==> !Contains(pieces[k], Webroot))
      && (forall k :: 0 <= k < |pieces| - 1 ==> !Contains(pieces[k] + Webroot[..|Webroot| - 1], Webroot))
  {
    var (model, field) := ParseReference(ref);
    var token := DirectoryToken(data, model, info.upload, info.primaryKey).value;
    var stored := Lookup(data, model, field).GetOr("");
    var assembled := AssembledPath(info.upload, token, size, field, stored, ds);
    ThumbnailNameInOrder(info.upload.thumbnailName, size, field);
    StrReplaceIsImplodeExplode(assembled, Webroot, "");
    ExplodePiecesFree(Webroot, assembled);
    ExplodeLeftmost(Webroot, assembled);
  }

  /** With all checks passed and a token found, the result is the assembled path minus `webroot`. */
  lemma GetSourceResolved(ref: string, size: string, data: Record, info: ModelInfo, ds: string,
                          model: string, field: string, token: string)
    requires ValidReference(ref) && ParseReference(ref) == (model, field)
    requires info.registered && info.hasField && info.uploadAttached
    requires DirectoryToken(data, model, info.upload, info.primaryKey) == Some(token)
    ensures GetSource(ref, size, data, info, ds) ==
      Success(StrReplace(AssembledPath(info.upload, token, size, field, Lookup(data, model, field).GetOr(""), ds), Webroot, ""))
  {
  }

  /** A path without `webroot` comes back exactly as assembled. */
  lemma WebrootFreeUnchanged(path: string)
    requires !Contains(path, Webroot)
    ensures StrReplace(path, Webroot, "") == path
  {
    StrReplaceAbsent(path, Webroot, "");
  }

  /** How `webwebrootroot` splits around its one whole `webroot`. */
  lemma SinglePassSplit(s: string, c: char, a: string, b: string)
    requires s == "webwebrootroot" && c == 'w' && a == "eb" && b == "root"
    ensures s == [c] + a + Webroot + b
    ensures Webroot[0] !in a && !Contains(b, Webroot) && !StartsWith(s, Webroot)
  {
    assert s[3] != Webroot[3];
    FirstCharAbsent(b, Webroot);
  }

  /** What is left of `webwebrootroot` once its `webroot` is gone. */
  lemma SinglePassRest(c: char, a: string, b: string)
    requires c == 'w' && a == "eb" && b == "root"
    ensures [c] + a + "" + b == "webroot"
  {
  }

  /** One pass does not rescan: deleting `webroot` can leave a `webroot` behind. */
  lemma WebrootRemovalSinglePass()
    ensures StrReplace("webwebrootroot", Webroot, "") == "webroot"
    ensures Contains("webroot", Webroot)
  {
    SinglePassSplit("webwebrootroot", 'w', "eb", "root");
    StrReplaceAfter('w', "eb", Webroot, "root", "");
    SinglePassRest('w', "eb", "root");
    assert StartsWith("webroot", Webroot);
  }

  /** The example's base path: the root directory cut from the thumbnail directory. */
  lemma BasePathExample(upload: UploadSettings)
    requires upload.rootDir == "/app/webroot/files" && upload.thumbnailPath == "/app/webroot/files/thumbs"
    ensures BasePath(upload) == "/thumbs"
  {
    assert upload.thumbnailPath == upload.rootDir + "/thumbs";
    ShortNotContains("/thumbs", upload.rootDir);
    StrReplaceFront(upload.rootDir, "/thumbs", "");
  }

  /** The example's thumbnail name, first step: `{size}` replaced. */
  lemma SizeStepExample(template: string)
    requires template == "{filename}_{size}"
    ensures StrReplace(template, "{size}", "small") == "{filename}_small"
  {
    assert StrReplace(template, "{size}", "small") == ['{'] + "filename}_" + "small" + "" by {
      assert template == ['{'] + "filename}_" + "{size}" + "" && !StartsWith(template, "{size}") by {
        assert template[1] != "{size}"[1];
      }
      ShortNotContains("", "{size}");
      StrReplaceAfter('{', "filename}_", "{size}", "", "small");
    }
    assert ['{'] + "filename}_" + "small" + "" == "{filename}_small";
  }

  /** The example's thumbnail name, second step: `{filename}` replaced. */
  lemma FilenameStepExample(sized: string)
    requires sized == "{filename}_small"
    ensures StrReplace(sized, "{filename}", "avatar") == "avatar_small"
  {
    assert StrReplace(sized, "{filename}", "avatar") == "avatar" + "_small" by {
      assert sized == "{filename}" + "_small";
      FirstCharAbsent("_small", "{filename}");
      StrReplaceFront("{filename}", "_small", "avatar");
    }
    assert "avatar" + "_small" == "avatar_small";
  }

  /** The example's thumbnail name. */
  lemma ThumbnailNameExample(template: string, size: string, field: string)
    requires template == "{filename}_{size}" && size == "small" && field == "avatar"
    ensures ThumbnailName(template, size, field) == "avatar_small"
  {
    ThumbnailNameInOrder(template, size, field);
    SizeStepExample(template);
    FilenameStepExample(StrReplace(template, "{size}", size));
  }

  /** The example's extension. */
  lemma ExtensionExample(value: string)
    requires value == "pic.jpg"
    ensures Extension(value) == "jpg"
  {
    assert value == "pic" + "." + "jpg";
    ExplodeAtFirst('.', "pic", "jpg");
    ContainsChar("jpg", '.');
    ExplodeAbsent(".", "jpg");
  }

  /** The example's assembled path, before the `webroot` removal. */
  lemma AssembledPathExample(upload: UploadSettings, token: string, size: string, field: string, stored: string, ds: string)
    requires upload.thumbnailName == "{filename}_{size}"
    requires upload.rootDir == "/app/webroot/files" && upload.thumbnailPath == "/app/webroot/files/thumbs"
    requires token == "42" && size == "small" && field == "avatar" && stored == "pic.jpg" && ds == "/"
    ensures AssembledPath(upload, token, size, field, stored, ds) == "/thumbs/42/avatar_small.jpg"
  {
    BasePathExample(upload);
    ThumbnailNameExample(upload.thumbnailName, size, field);
    ExtensionExample(stored);
    ExamplePathParts(BasePath(upload), ds, token, ThumbnailName(upload.thumbnailName, size, field), Extension(stored));
  }

  /** The example's path, put together from its parts. */
  lemma ExamplePathParts(base: string, ds: string, token: string, name: string, ext: string)
    requires base == "/thumbs" && ds == "/" && token == "42" && name == "avatar_small" && ext == "jpg"
    ensures base + ds + token + ds + name + "." + ext == "/thumbs/42/avatar_small.jpg"
  {
  }

  /** The example's reference `User.avatar`. */
  lemma UserAvatarReference(ref: string)
    requires ref == "User.avatar"
    ensures ValidReference(ref) && ParseReference(ref) == ("User", "avatar")
  {
    ReferenceRoundTrip("User", "avatar");
    assert "User" + "." + "avatar" == ref;
  }

  /** The final paths of the two worked examples hold no `webroot`. */
  lemma ExamplePathsWebrootFree(path: string)
    requires path == "/thumbs/42/avatar_small.jpg" || path == "/thumbs/42/thumb."
    ensures StrReplace(path, Webroot, "") == path
  {
    FirstCharAbsent(path, Webroot);
    WebrootFreeUnchanged(path);
  }

  /**
   * The worked example: thumbnails under `/app/webroot/files/thumbs`, root
   * `/app/webroot/files`, template `{filename}_{size}`, the `User.avatar`
   * value `pic.jpg` stored in directory `42`, size `small`.
   */
  lemma GetSourceExample(ref: string, size: string, data: Record, info: ModelInfo, ds: string)
    requires ref == "User.avatar" && size == "small" && ds == "/"
    requires data == map["User" := map["id" := "1", "avatar" := "pic.jpg", "avatar_dir" := "42"]]
    requires info.registered && info.hasField && info.uploadAttached
    requires info.upload.dirField == "avatar_dir" && info.upload.thumbnailName == "{filename}_{size}"
    requires info.upload.rootDir == "/app/webroot/files"
    requires info.upload.thumbnailPath == "/app/webroot/files/thumbs"
    ensures ValidReference(ref)
    ensures GetSource(ref, size, data, info, ds) == Success("/thumbs/42/avatar_small.jpg")
  {
    UserAvatarReference(ref);
    assert DirectoryToken(data, "User", info.upload, info.primaryKey) == Some("42");
    assert Lookup(data, "User", "avatar") == Some("pic.jpg");
    GetSourceResolved(ref, size, data, info, ds, "User", "avatar", "42");
    AssembledPathExample(info.upload, "42", size, "avatar", "pic.jpg", ds);
    ExamplePathsWebrootFree("/thumbs/42/avatar_small.jpg");
  }

  // ---------------------------------------------------------------------
  // src, image and the warnings

  /**
   * The warnings `src` and `image` raise: on success none; otherwise
   * `_getSource`'s own warning (when it failed) followed by their own, each
   * only when the warnings option is on. `image` fails only when
   * `_getSource` does.
   */
  lemma FailureWarnings(h: Helper, ref: string, size: string, data: Record, info: ModelInfo, ds: string)
    requires ValidReference(ref)
    ensures var out := Src(h, ref, size, data, info, ds);
      var r := GetSource(ref, size, data, info, ds);
      var (model, field) := ParseReference(ref);
      && (!WarningsOn(h) ==> out.warnings == [])
      && (WarningsOn(h) && r.Failure? ==>
            out.warnings == [r.error, SourceOrDirectoryMissing(model, field)])
      && (WarningsOn(h) && r.Success? && out.value.None? ==>
            out.warnings == [SourceOrDirectoryMissing(model, field)])
    ensures var img := Image(h, ref, size, data, info, ds);
      var r := GetSource(ref, size, data, info, ds);
      var (model, field) := ParseReference(ref);
      && (!WarningsOn(h) ==> img.warnings == [])
      && (WarningsOn(h) && r.Failure? ==>
            img.warnings == [r.error, SourceOrDirectoryMissing(model, field)])
  {
  }

  /**
   * `image`, as written, succeeds on a record that has no stored value for
   * the field, where `src` fails; the path it renders then ends in a bare
   * dot, the extension being empty.
   */
  lemma ImageIgnoresMissingValue(h: Helper, ref: string, size: string, data: Record, info: ModelInfo, ds: string)
    requires ValidReference(ref)
    requires info.registered && info.hasField && info.uploadAttached
    requires DirectoryToken(data, ParseReference(ref).0, info.upload, info.primaryKey).Some?
    requires Lookup(data, ParseReference(ref).0, ParseReference(ref).1).None?
    ensures Src(h, ref, size, data, info, ds).value.None?
    ensures ImageChecked(h, ref, size, data, info, ds).value.None?
    ensures var out := Image(h, ref, size, data, info, ds);
      out.value.Some? && |out.value.value| > 0 && out.value.value[|out.value.value| - 1] == '.'
  {
    var (model, field) := ParseReference(ref);
    var token := DirectoryToken(data, model, info.upload, info.primaryKey).value;
    var name := ThumbnailName(info.upload.thumbnailName, size, field);
    var front := BasePath(info.upload) + ds + token + ds + name;
    ExplodeAbsent(".", "");
    assert Extension("") == "";
    assert AssembledPath(info.upload, token, size, field, "", ds) == front + ['.'];
    StrReplaceAppend(front, '.', Webroot, "");
  }

  /** The base path of that example: the root directory does not occur in it. */
  lemma MissingValueBasePath(upload: UploadSettings)
    requires upload.rootDir == "/app/webroot" && upload.thumbnailPath == "/thumbs"
    ensures BasePath(upload) == "/thumbs"
  {
    ShortNotContains(upload.thumbnailPath, upload.rootDir);
    StrReplaceAbsent(upload.thumbnailPath, upload.rootDir, "");
  }

  /** The thumbnail name of that example: a template with no placeholder. */
  lemma MissingValueThumbnailName(template: string, size: string, field: string)
    requires template == "thumb"
    ensures ThumbnailName(template, size, field) == "thumb"
  {
    FirstCharAbsent(template, "{size}");
    StrReplaceAbsent(template, "{size}", size);
    FirstCharAbsent(template, "{filename}");
    StrReplaceAbsent(template, "{filename}", field);
    ThumbnailNameInOrder(template, size, field);
  }

  /** The assembled path of that record: an empty extension after the dot. */
  lemma MissingValuePathExample(upload: UploadSettings, token: string, size: string, field: string, stored: string, ds: string)
    requires upload.thumbnailName == "thumb" && upload.rootDir == "/app/webroot" && upload.thumbnailPath == "/thumbs"
    requires token == "42" && size == "small" && field == "avatar" && stored == "" && ds == "/"
    ensures AssembledPath(upload, token, size, field, stored, ds) == "/thumbs/42/thumb."
  {
    MissingValueBasePath(upload);
    MissingValueThumbnailName(upload.thumbnailName, size, field);
    ExplodeAbsent(".", stored);
    assert "/thumbs" + "/" + "42" + "/" + "thumb" + "." + "" == "/thumbs/42/thumb.";
  }

  /**
   * `_getSource` on a record that carries the directory of `User.avatar`
   * but no `avatar` value: it still succeeds, with an empty extension.
   */
  lemma GetSourceMissingValueExample(ref: string, size: string, data: Record, info: ModelInfo, ds: string)
    requires ref == "User.avatar" && size == "small" && ds == "/"
    requires info.registered && info.hasField && info.uploadAttached
    requires info.upload.dirField == "avatar_dir" && info.upload.thumbnailName == "thumb"
    requires info.upload.rootDir == "/app/webroot" && info.upload.thumbnailPath == "/thumbs"
    requires data == map["User" := map["avatar_dir" := "42"]]
    ensures ValidReference(ref) && ParseReference(ref) == ("User", "avatar")
    ensures Lookup(data, "User", "avatar") == None
    ensures GetSource(ref, size, data, info, ds) == Success("/thumbs/42/thumb.")
  {
    UserAvatarReference(ref);
    assert DirectoryToken(data, "User", info.upload, info.primaryKey) == Some("42");
    assert Lookup(data, "User", "avatar") == None;
    GetSourceResolved(ref, size, data, info, ds, "User", "avatar", "42");
    MissingValuePathExample(info.upload, "42", size, "avatar", "", ds);
    ExamplePathsWebrootFree("/thumbs/42/thumb.");
  }

  /** On that record `image` renders `/thumbs/42/thumb.` while `src` and the corrected `image` give nothing. */
  lemma ImageMissingValueExample(h: Helper, ref: string, size: string, data: Record, info: ModelInfo, ds: string)
    requires ref == "User.avatar" && size == "small" && ds == "/"
    requires info.registered && info.hasField && info.uploadAttached
    requires info.upload.dirField == "avatar_dir" && info.upload.thumbnailName == "thumb"
    requires info.upload.rootDir == "/app/webroot" && info.upload.thumbnailPath == "/thumbs"
    requires data == map["User" := map["avatar_dir" := "42"]]
    ensures ValidReference(ref)
    ensures Image(h, ref, size, data, info, ds).value == Some("/thumbs/42/thumb.")
    ensures Src(h, ref, size, data, info, ds).value == None
    ensures ImageChecked(h, ref, size, data, info, ds).value == None
  {
    GetSourceMissingValueExample(ref, size, data, info, ds);
  }
}
