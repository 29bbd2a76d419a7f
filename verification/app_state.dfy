/** The application state of App.js: named global slots, the transitions
    that clear or fill them, the guard that asks for the translation
    repository to be provisioned, and the name that repository gets. */
module AppState {
  import opened Wrappers
  import opened Strings
  import opened Gitea

  /** The signed-in user (`authentication.user.username`) */
  datatype Authentication = Authentication(username: string)

  /** The target language (`language.languageId`) */
  datatype Language = Language(languageId: string)

  /** A file chosen in a repository tree; only `filepath` is compared */
  datatype Blob = Blob(filepath: string, sha: string)

  /** A loaded file */
  datatype File = File(filepath: string, content: string)

  /** What the app asks the hosting service to provision (`ensureRepo`'s
      owner, repository name and description setting) */
  datatype EnsureRepoParams = EnsureRepoParams(owner: string, repo: string, description: string)

  /** The part of a repository name after its first "_" (its resource), as
      `name.split('_').slice(1).join('_')` computes it: empty when there is
      no "_". */
  lemma ResourceSuffix(name: string)
    ensures '_' !in name ==> Join(Split(name, '_')[1..], "_") == ""
    ensures forall k :: 0 <= k < |name| && name[k] == '_' && '_' !in name[..k] ==>
              Join(Split(name, '_')[1..], "_") == name[k + 1..]
  {
    if '_' !in name {
      SplitWithoutSeparator(name, '_');
    }
    forall k | 0 <= k < |name| && name[k] == '_' && '_' !in name[..k]
      ensures Join(Split(name, '_')[1..], "_") == name[k + 1..]
    {
      ResourceSuffixAt(name, k);
    }
  }

  lemma ResourceSuffixAt(name: string, k: nat)
    requires k < |name| && name[k] == '_' && '_' !in name[..k]
    ensures Join(Split(name, '_')[1..], "_") == name[k + 1..]
  {
    var rest := name[k + 1..];
    assert name == name[..k] + ['_'] + rest;
    SplitAtFirst(name[..k], '_', rest);
    assert Split(name, '_')[1..] == Split(rest, '_');
    JoinSplit(rest, '_');
  }

  /** The translation repository's name: the original name's first
      "_"-separated segment (its language) replaced by `languageId`. The
      name is the language id, "_", and everything after the original's
      first "_"; an original without "_" gives the language id and "_". */
  function TranslationRepoName(languageId: string, originalName: string): (name: string)
    ensures '_' !in originalName ==> name == languageId + "_"
    ensures forall k :: 0 <= k < |originalName| && originalName[k] == '_' && '_' !in originalName[..k] ==>
              name == languageId + "_" + originalName[k + 1..]
  {
    ResourceSuffix(originalName);
    languageId + "_" + Join(Split(originalName, '_')[1..], "_")
  }

  /** The original repository "en_tn" becomes "fr_tn" for French. */
  lemma TranslationRepoNameExample()
    ensures TranslationRepoName("fr", "en_tn") == "fr_tn"
  {
    assert "en_tn"[2] == '_' && '_' !in "en_tn"[..2];
  }

  class App {
    var authentication: Option<Authentication>
    var originalRepository: Option<Repository>
    var translationRepository: Option<Repository>
    var originalBlob: Option<Blob>
    var translationBlob: Option<Blob>
    var originalFile: Option<File>
    var translationFile: Option<File>
    var language: Option<Language>
    var sectionable: bool
    var fontScale: int

    /** The initial globals: sections on, font at 100%, every other slot empty */
    constructor ()
      ensures authentication == None && originalRepository == None && translationRepository == None
      ensures originalBlob == None && translationBlob == None
      ensures originalFile == None && translationFile == None && language == None
      ensures sectionable && fontScale == 100
    {
      authentication, originalRepository, translationRepository := None, None, None;
      originalBlob, translationBlob := None, None;
      originalFile, translationFile := None, None;
      language := None;
      sectionable, fontScale := true, 100;
    }

    /** The slots that a change of original repository makes stale are all empty */
    predicate Cleared()
      reads this
    {
      && translationFile == None && translationBlob == None
      && originalFile == None && originalBlob == None
      && translationRepository == None
    }

    /** `cleanup`: empty the two files, the two blobs and the translation
        repository; nothing else changes. */
    method Cleanup()
      modifies this
      ensures Cleared()
      ensures authentication == old(authentication) && originalRepository == old(originalRepository)
      ensures language == old(language) && sectionable == old(sectionable) && fontScale == old(fontScale)
    {
      translationFile := None;
      translationBlob := None;
      originalFile := None;
      originalBlob := None;
      translationRepository := None;
    }

    /** `onOriginalRepository`: store the new original repository; clear the
        stale slots when it is missing, or when it replaces a repository with
        a different `full_name`. A first choice (no previous repository)
        clears nothing. */
    method OnOriginalRepository(repository: Option<Repository>)
      modifies this
      ensures originalRepository == repository
      ensures
        var replaced := old(originalRepository).Some? && repository.Some?
                        && old(originalRepository).value.fullName != repository.value.fullName;
        if repository.None? || replaced then Cleared()
        else
          && translationFile == old(translationFile) && translationBlob == old(translationBlob)
          && originalFile == old(originalFile) && originalBlob == old(originalBlob)
          && translationRepository == old(translationRepository)
      ensures authentication == old(authentication) && language == old(language)
      ensures sectionable == old(sectionable) && fontScale == old(fontScale)
    {
      if repository.None? {
        Cleanup();
      }
      if originalRepository.Some? && repository.Some? {
        if originalRepository.value.fullName != repository.value.fullName {
          Cleanup();
        }
      }
      originalRepository := repository;
    }

    /** The guard of the population: signed in, an original repository and a
        language chosen, and no translation repository yet */
    predicate NeedsTranslationRepository()
      reads this
    {
      authentication.Some? && originalRepository.Some? && language.Some? && translationRepository.None?
    }

    /** The parameters `populateTranslationRepository` passes to `ensureRepo`:
        the user as owner, the original's description, and as repository name
        the language id, "_" and the original name's part after its first "_"
        (the language id and "_" alone when it has none). */
    function EnsureRepoRequest(): (params: EnsureRepoParams)
      reads this
      requires NeedsTranslationRepository()
      ensures params.owner == authentication.value.username
      ensures params.description == originalRepository.value.description
      ensures var original := originalRepository.value.name;
        '_' !in original ==> params.repo == language.value.languageId + "_"
      ensures var original := originalRepository.value.name;
        forall k :: 0 <= k < |original| && original[k] == '_' && '_' !in original[..k] ==>
          params.repo == language.value.languageId + "_" + original[k + 1..]
    {
      var name := TranslationRepoName(language.value.languageId, originalRepository.value.name);
      EnsureRepoParams(authentication.value.username, name, originalRepository.value.description)
    }

    /** One render's population step: when the guard holds, the repository
        that `ensureRepo` answered for `EnsureRepoRequest()` becomes the
        translation repository; otherwise nothing changes. Either way the
        guard is off afterwards, so a second step does nothing. */
    method PopulateTranslationRepository(ensured: Repository)
      modifies this
      ensures old(NeedsTranslationRepository()) ==> translationRepository == Some(ensured)
      ensures !old(NeedsTranslationRepository()) ==> translationRepository == old(translationRepository)
      ensures !NeedsTranslationRepository()
      ensures authentication == old(authentication) && originalRepository == old(originalRepository)
      ensures originalBlob == old(originalBlob) && translationBlob == old(translationBlob)
      ensures originalFile == old(originalFile) && translationFile == old(translationFile)
      ensures language == old(language) && sectionable == old(sectionable) && fontScale == old(fontScale)
    {
      if authentication.Some? && originalRepository.Some? && language.Some? && translationRepository.None? {
        translationRepository := Some(ensured);
      }
    }

    /** The blob-sync rule: when an original blob is chosen and the translation
        blob is missing or points at another file path, the translation blob
        becomes the original blob. Afterwards both point at the same path;
        without an original blob nothing changes. */
    method SyncTranslationBlob()
      modifies this
      ensures old(originalBlob).None? ==> translationBlob == old(translationBlob)
      ensures old(originalBlob).Some? && (old(translationBlob).None?
                || old(translationBlob).value.filepath != old(originalBlob).value.filepath)
              ==> translationBlob == old(originalBlob)
      ensures old(originalBlob).Some? && old(translationBlob).Some?
                && old(translationBlob).value.filepath == old(originalBlob).value.filepath
              ==> translationBlob == old(translationBlob)
      ensures originalBlob.Some? ==> translationBlob.Some? && translationBlob.value.filepath == originalBlob.value.filepath
      ensures authentication == old(authentication) && originalRepository == old(originalRepository)
      ensures translationRepository == old(translationRepository) && originalBlob == old(originalBlob)
      ensures originalFile == old(originalFile) && translationFile == old(translationFile)
      ensures language == old(language) && sectionable == old(sectionable) && fontScale == old(fontScale)
    {
      var needBlob := originalBlob.Some? && translationBlob.None?;
      var needBlobUpdate := originalBlob.Some? && translationBlob.Some?
        && originalBlob.value.filepath != translationBlob.value.filepath;
      if needBlob || needBlobUpdate {
        translationBlob := originalBlob;
      }
    }
  }
}
