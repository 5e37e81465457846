/** The per-file globals of the lister: `currentFilePath`,
    `currentFileContent` and the content cache `fileContentsCache`, set by
    `setCurrentFile` and cleared by `cleanup`. */
module Session {
  import opened Wrappers

  /** The three globals; `None` is JavaScript's `null`. */
  datatype State = State(cache: map<string, string>, path: Option<string>, content: Option<string>)

  /** The globals when the program starts: an empty cache, both variables `null`. */
  const Initial: State := State(map[], None, None)

  /** The globals after a call, and whether it returned (`false`: it threw). */
  datatype Step = Step(ok: bool, state: State)

  /** `setCurrentFile(p)`, where `read` is what `fs.readFileSync(p, 'utf8')`
      would return (`None`: it throws). The path is set before the read, so
      a failed read leaves the new path beside the old content. */
  function Open(st: State, p: string, read: Option<string>): (r: Step)
    ensures r.state.path == Some(p)
    ensures r.ok <==> p in st.cache || read.Some?
    ensures r.ok ==> p in r.state.cache && r.state.content == Some(r.state.cache[p])
    ensures p in st.cache ==> r.state.cache == st.cache && r.state.content == Some(st.cache[p])
    ensures p !in st.cache && read.Some? ==> r.state.cache == st.cache[p := read.value]
    ensures !r.ok ==> r.state.cache == st.cache && r.state.content == st.content
  {
    if p in st.cache then
      Step(true, State(st.cache[p := st.cache[p]], Some(p), Some(st.cache[p])))
    else match read
      case None => Step(false, State(st.cache, Some(p), st.content))
      case Some(t) => Step(true, State(st.cache[p := t], Some(p), Some(t)))
  }

  /** `cleanup()`: only the cache is emptied. */
  function Clear(st: State): State {
    State(map[], st.path, st.content)
  }

  /** Every cached entry holds what the file system holds for its path. */
  ghost predicate Faithful(st: State, files: map<string, string>) {
    forall p :: p in st.cache ==> p in files && st.cache[p] == files[p]
  }

  /** What `fs.readFileSync` gives for `p` when the files are `files`. */
  function ReadFrom(files: map<string, string>, p: string): Option<string> {
    if p in files then Some(files[p]) else None
  }

  /** The cache never serves stale text while the files do not change: a
      faithful cache stays faithful, and the current content is the file's. */
  lemma OpenFaithful(st: State, files: map<string, string>, p: string)
    requires Faithful(st, files)
    ensures Faithful(Open(st, p, ReadFrom(files, p)).state, files)
    ensures Open(st, p, ReadFrom(files, p)).ok <==> p in files
    ensures Open(st, p, ReadFrom(files, p)).ok ==> Open(st, p, ReadFrom(files, p)).state.content == Some(files[p])
  {
  }

  /** A second call for the same path is answered from the cache: it cannot
      fail, whatever a new read would give, and changes nothing. */
  lemma OpenAgain(st: State, p: string, read: Option<string>, again: Option<string>)
    requires Open(st, p, read).ok
    ensures Open(Open(st, p, read).state, p, again) == Open(st, p, read)
  {
    var s1 := Open(st, p, read).state;
    assert s1.cache[p := s1.cache[p]] == s1.cache;
  }

  /** Opening other paths never evicts an entry and never changes a cached text. */
  lemma OpenKeeps(st: State, p: string, read: Option<string>, q: string)
    requires q in st.cache
    ensures q in Open(st, p, read).state.cache
    ensures Open(st, p, read).state.cache[q] == st.cache[q]
  {
  }

  /** The globals of the lister, as an object whose fields `setCurrentFile` and `cleanup` update. */
  class FileSession {
    var cache: map<string, string>
    var currentPath: Option<string>
    var currentContent: Option<string>

    function Current(): State
      reads this
    {
      State(cache, currentPath, currentContent)
    }

    constructor ()
      ensures Current() == Initial
    {
      cache := map[];
      currentPath := None;
      currentContent := None;
    }

    /** `setCurrentFile(p)`; `ok` is `false` where the read throws. */
    method SetCurrentFile(p: string, read: Option<string>) returns (ok: bool)
      modifies this
      ensures Step(ok, Current()) == Open(old(Current()), p, read)
    {
      currentPath := Some(p);
      if p in cache {
        currentContent := Some(cache[p]);
      } else {
        match read
        case None => return false;
        case Some(t) => currentContent := Some(t);
      }
      cache := cache[p := currentContent.value];
      ok := true;
    }

    /** `cleanup()`. */
    method Cleanup()
      modifies this
      ensures Current() == Clear(old(Current()))
    {
      cache := map[];
    }
  }
}
