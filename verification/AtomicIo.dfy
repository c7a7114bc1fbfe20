/** Writers, failing writers and readers of JSON files, interleaved (core/project/atomic_io.py:119-242).
    One action is one file-system operation or one region under the snapshot lock. Decoding is any
    partial function; the eviction policy of the cache is left open here (module LruCache). */
module AtomicIo {
  import opened Wrappers

  type Path = string
  type Text = string
  type Agent = nat

  datatype File = Dest(path: Path) | Temp(n: nat)

  /** written counts the characters that have reached the temporary file. */
  datatype Writer = Writer(path: Path, text: Text, temp: nat, written: nat)

  /** during is a history: the contents of the path from the start of the read to the attempt that parsed one. */
  datatype Reader<V> =
    | Attempt(path: Path, second: bool, during: set<Text>)
    | Parsed(path: Path, value: V, during: set<Text>)
    | FallingBack(path: Path)

  /** What a read returned, and where from. */
  datatype Return<V> =
    | FromFile(path: Path, value: V, during: set<Text>)
    | FromCache(path: Path, value: V)

  /** whole is a history: for each path the initial content and every completed replacement. */
  datatype Disk<V> = Disk(
    files: map<File, Text>, temps: nat,
    writers: map<Agent, Writer>, readers: map<Agent, Reader<V>>,
    cache: map<Path, V>, returned: seq<Return<V>>,
    whole: map<Path, set<Text>>)

  datatype Action =
    | Open(w: Agent, path: Path, text: Text)
    | Write(w: Agent, upTo: nat)
    | Replace(w: Agent)
    | Denied(w: Agent)                      // a replace refused by the system, to be retried
    | Abort(w: Agent)                       // any failure, at any moment before the replace
    | StartRead(r: Agent, path: Path)
    | ReadFile(r: Agent, osError: bool)
    | Remember(r: Agent, evicted: set<Path>)
    | Fallback(r: Agent)

  function WholeOf<V>(s: Disk<V>, p: Path): set<Text> { if p in s.whole then s.whole[p] else {} }

  predicate Enabled<V>(s: Disk<V>, a: Action)
  {
    match a
    case Open(w, _, _) => w !in s.writers
    case Write(w, upTo) => w in s.writers && s.writers[w].written <= upTo <= |s.writers[w].text|
    case Replace(w) =>
      w in s.writers && s.writers[w].written == |s.writers[w].text| && Temp(s.writers[w].temp) in s.files
    case Denied(w) => w in s.writers
    case Abort(w) => w in s.writers
    case StartRead(r, _) => r !in s.readers
    case ReadFile(r, _) => r in s.readers && s.readers[r].Attempt?
    case Remember(r, _) => r in s.readers && s.readers[r].Parsed?
    case Fallback(r) => r in s.readers && s.readers[r].FallingBack?
  }

  /** The content of the path, if there is one. */
  function Now<V>(s: Disk<V>, p: Path): set<Text>
  {
    if Dest(p) in s.files then {s.files[Dest(p)]} else {}
  }

  /** A read under way spans the new content as well. */
  function Span<V>(reader: Reader<V>, path: Path, text: Text): Reader<V>
  {
    if reader.Attempt? && reader.path == path then Attempt(path, reader.second, reader.during + {text}) else reader
  }

  function Step<V>(s: Disk<V>, parse: Text -> Option<V>, a: Action): Disk<V>
    requires Enabled(s, a)
  {
    match a
    case Open(w, path, text) =>
      s.(files := s.files[Temp(s.temps) := ""], temps := s.temps + 1,
         writers := s.writers[w := Writer(path, text, s.temps, 0)])
    case Write(w, upTo) =>
      var writer := s.writers[w];
      s.(files := s.files[Temp(writer.temp) := writer.text[..upTo]],
         writers := s.writers[w := writer.(written := upTo)])
    case Replace(w) =>
      var writer := s.writers[w];
      s.(files := s.files[Dest(writer.path) := s.files[Temp(writer.temp)]] - {Temp(writer.temp)},
         writers := s.writers - {w},
         readers := map r | r in s.readers :: Span(s.readers[r], writer.path, writer.text),
         whole := s.whole[writer.path := WholeOf(s, writer.path) + {writer.text}])
    case Denied(w) => s
    case Abort(w) => s.(files := s.files - {Temp(s.writers[w].temp)}, writers := s.writers - {w})
    case StartRead(r, path) => s.(readers := s.readers[r := Attempt(path, false, Now(s, path))])
    case ReadFile(r, osError) =>
      var Attempt(path, second, during) := s.readers[r];
      var value := if osError || Dest(path) !in s.files then None else parse(s.files[Dest(path)]);
      var next :=
        if value.Some? then Parsed(path, value.value, during)
        else if second then FallingBack(path)
        else Attempt(path, true, during);
      s.(readers := s.readers[r := next])
    case Remember(r, evicted) =>
      var Parsed(path, value, during) := s.readers[r];
      s.(cache := (s.cache - evicted)[path := value], readers := s.readers - {r},
         returned := s.returned + [FromFile(path, value, during)])
    case Fallback(r) =>
      var path := s.readers[r].path;
      var t := s.(readers := s.readers - {r});
      if path in s.cache then t.(returned := s.returned + [FromCache(path, s.cache[path])]) else t
  }

  function Initial<V>(files: map<Path, Text>): Disk<V>
  {
    Disk(map f: File | f in (set p | p in files :: Dest(p)) :: files[f.path], 0, map[], map[], map[], [],
         map p | p in files :: {files[p]})
  }

  /** Nobody has read or written yet, and the history holds just the files that are there. */
  ghost predicate Untouched<V>(s: Disk<V>)
  {
    && s.writers == map[] && s.readers == map[] && s.cache == map[] && s.returned == []
    && (forall n: nat :: Temp(n) !in s.files)
    && (forall p :: WholeOf(s, p) == Now(s, p))
  }

  /** The value was the whole content of the path at some moment. */
  ghost predicate WasWhole<V>(s: Disk<V>, parse: Text -> Option<V>, p: Path, v: V)
  {
    exists t | t in WholeOf(s, p) :: parse(t) == Some(v)
  }

  /** The value was parsed from one of the contents that the read spanned. */
  ghost predicate Spanned<V>(parse: Text -> Option<V>, during: set<Text>, v: V)
  {
    exists t | t in during :: parse(t) == Some(v)
  }

  ghost predicate ReaderOk<V>(s: Disk<V>, parse: Text -> Option<V>, r: Agent)
  {
    r in s.readers ==>
      match s.readers[r]
      case Attempt(path, _, during) => Now(s, path) <= during <= WholeOf(s, path)
      case Parsed(path, value, during) => during <= WholeOf(s, path) && Spanned(parse, during, value)
      case FallingBack(_) => true
  }

  /** One of the first n returns was this value, read from the file of this path. */
  ghost predicate WasRead<V>(s: Disk<V>, n: nat, p: Path, v: V)
  {
    exists k | 0 <= k < n && k < |s.returned| ::
      s.returned[k].FromFile? && s.returned[k].path == p && s.returned[k].value == v
  }

  ghost predicate ReturnOk<V>(s: Disk<V>, parse: Text -> Option<V>, i: nat)
    requires i < |s.returned|
  {
    match s.returned[i]
    case FromFile(path, value, during) => during <= WholeOf(s, path) && Spanned(parse, during, value)
    case FromCache(path, value) => WasRead(s, i, path, value)
  }

  ghost predicate WriterOk<V>(s: Disk<V>, w: Agent)
  {
    w in s.writers ==>
      var writer := s.writers[w];
      && writer.temp < s.temps && writer.written <= |writer.text|
      && Temp(writer.temp) in s.files && s.files[Temp(writer.temp)] == writer.text[..writer.written]
  }

  /** The temporary file belongs to a write under way. */
  ghost predicate HasWriter<V>(s: Disk<V>, n: nat)
  {
    exists w | w in s.writers :: s.writers[w].temp == n
  }

  ghost predicate Inv<V>(s: Disk<V>, parse: Text -> Option<V>)
  {
    && (forall p | Dest(p) in s.files :: s.files[Dest(p)] in WholeOf(s, p))
    && (forall w :: WriterOk(s, w))
    && (forall v, w | v in s.writers && w in s.writers && v != w :: s.writers[v].temp != s.writers[w].temp)
    && (forall n | Temp(n) in s.files :: HasWriter(s, n))
    && (forall r :: ReaderOk(s, parse, r))
    && (forall p | p in s.cache :: WasRead(s, |s.returned|, p, s.cache[p]))
    && (forall i | 0 <= i < |s.returned| :: ReturnOk(s, parse, i))
  }

  lemma HistoryGrows<V>(s: Disk<V>, parse: Text -> Option<V>, a: Action)
    requires Enabled(s, a)
    ensures s.returned <= Step(s, parse, a).returned
    ensures forall p :: WholeOf(s, p) <= WholeOf(Step(s, parse, a), p)
  {
  }

  lemma DestStaysWhole<V>(s: Disk<V>, parse: Text -> Option<V>, a: Action, p: Path)
    requires Inv(s, parse) && Enabled(s, a) && Dest(p) in Step(s, parse, a).files
    ensures Step(s, parse, a).files[Dest(p)] in WholeOf(Step(s, parse, a), p)
  {
    if a.Replace? {
      assert WriterOk(s, a.w);
      var writer := s.writers[a.w];
      assert writer.text[..|writer.text|] == writer.text;
    }
  }

  lemma WriterStaysOk<V>(s: Disk<V>, parse: Text -> Option<V>, a: Action, w: Agent)
    requires Inv(s, parse) && Enabled(s, a)
    ensures WriterOk(Step(s, parse, a), w)
  {
    assert WriterOk(s, w);
    if a.Replace? || a.Abort? || a.Write? {
      assert WriterOk(s, a.w);
    }
  }

  lemma ReaderStaysOk<V>(s: Disk<V>, parse: Text -> Option<V>, a: Action, r: Agent)
    requires Inv(s, parse) && Enabled(s, a)
    ensures ReaderOk(Step(s, parse, a), parse, r)
  {
    assert ReaderOk(s, parse, r);
    HistoryGrows(s, parse, a);
    if a.Replace? {
      assert WriterOk(s, a.w);
      var writer := s.writers[a.w];
      assert writer.text[..|writer.text|] == writer.text;
    }
  }

  lemma WasReadStays<V>(s: Disk<V>, t: Disk<V>, n: nat, p: Path, v: V)
    requires s.returned <= t.returned && WasRead(s, n, p, v)
    ensures WasRead(t, n, p, v)
  {
    var k :| 0 <= k < n && k < |s.returned| && s.returned[k].FromFile? && s.returned[k].path == p
             && s.returned[k].value == v;
    assert t.returned[k] == s.returned[k];
  }

  lemma ReturnStaysOk<V>(s: Disk<V>, parse: Text -> Option<V>, a: Action, i: nat)
    requires Inv(s, parse) && Enabled(s, a) && i < |Step(s, parse, a).returned|
    ensures ReturnOk(Step(s, parse, a), parse, i)
  {
    var t := Step(s, parse, a);
    HistoryGrows(s, parse, a);
    if i < |s.returned| {
      assert ReturnOk(s, parse, i) && t.returned[i] == s.returned[i];
      if s.returned[i].FromCache? {
        WasReadStays(s, t, i, s.returned[i].path, s.returned[i].value);
      }
    } else if a.Remember? {
      assert ReaderOk(s, parse, a.r);
    } else {
      var path := s.readers[a.r].path;
      WasReadStays(s, t, i, path, s.cache[path]);
    }
  }

  lemma CacheStaysRead<V>(s: Disk<V>, parse: Text -> Option<V>, a: Action, p: Path)
    requires Inv(s, parse) && Enabled(s, a) && p in Step(s, parse, a).cache
    ensures WasRead(Step(s, parse, a), |Step(s, parse, a).returned|, p, Step(s, parse, a).cache[p])
  {
    var t := Step(s, parse, a);
    HistoryGrows(s, parse, a);
    if a.Remember? && s.readers[a.r].path == p {
      assert t.returned[|s.returned|] == FromFile(p, t.cache[p], s.readers[a.r].during);
    } else {
      WasReadStays(s, t, |s.returned|, p, s.cache[p]);
    }
  }

  lemma TempsStayDistinct<V>(s: Disk<V>, parse: Text -> Option<V>, a: Action, v: Agent, w: Agent)
    requires Inv(s, parse) && Enabled(s, a) && v != w
    requires v in Step(s, parse, a).writers && w in Step(s, parse, a).writers
    ensures Step(s, parse, a).writers[v].temp != Step(s, parse, a).writers[w].temp
  {
    assert WriterOk(s, v) && WriterOk(s, w);
  }

  lemma TempsKeepTheirWriter<V>(s: Disk<V>, parse: Text -> Option<V>, a: Action, n: nat)
    requires Inv(s, parse) && Enabled(s, a) && Temp(n) in Step(s, parse, a).files
    ensures HasWriter(Step(s, parse, a), n)
  {
    var t := Step(s, parse, a);
    if a.Open? && n == s.temps {
      assert t.writers[a.w].temp == n;
    } else if a.Write? && n == s.writers[a.w].temp {
      assert t.writers[a.w].temp == n;
    } else {
      assert HasWriter(s, n);
      var w :| w in s.writers && s.writers[w].temp == n;
      assert WriterOk(s, w);
      assert w in t.writers && t.writers[w].temp == n;
    }
  }

  lemma StepKeepsInv<V>(s: Disk<V>, parse: Text -> Option<V>, a: Action)
    requires Inv(s, parse) && Enabled(s, a)
    ensures Inv(Step(s, parse, a), parse)
  {
    var t := Step(s, parse, a);
    forall p | Dest(p) in t.files ensures t.files[Dest(p)] in WholeOf(t, p) {
      DestStaysWhole(s, parse, a, p);
    }
    forall w ensures WriterOk(t, w) {
      WriterStaysOk(s, parse, a, w);
    }
    forall v, w | v in t.writers && w in t.writers && v != w ensures t.writers[v].temp != t.writers[w].temp {
      TempsStayDistinct(s, parse, a, v, w);
    }
    forall n | Temp(n) in t.files ensures HasWriter(t, n) {
      TempsKeepTheirWriter(s, parse, a, n);
    }
    forall r ensures ReaderOk(t, parse, r) {
      ReaderStaysOk(s, parse, a, r);
    }
    forall p | p in t.cache ensures WasRead(t, |t.returned|, p, t.cache[p]) {
      CacheStaysRead(s, parse, a, p);
    }
    forall i | 0 <= i < |t.returned| ensures ReturnOk(t, parse, i) {
      ReturnStaysOk(s, parse, a, i);
    }
  }

  /** The history of a read is exactly the content at its start and every replacement of its path since. */
  lemma ReadSpansItsContents<V>(s: Disk<V>, parse: Text -> Option<V>, a: Action, r: Agent)
    requires Enabled(s, a) && r in Step(s, parse, a).readers && Step(s, parse, a).readers[r].Attempt?
    ensures var reader := Step(s, parse, a).readers[r];
      reader.during ==
        if a.StartRead? && a.r == r then Now(s, reader.path)
        else if a.Replace? && s.writers[a.w].path == reader.path then s.readers[r].during + {s.writers[a.w].text}
        else s.readers[r].during
  {
  }

  ghost predicate Possible<V>(s: Disk<V>, parse: Text -> Option<V>, actions: seq<Action>)
    decreases |actions|
  {
    actions == [] || (Enabled(s, actions[0]) && Possible(Step(s, parse, actions[0]), parse, actions[1..]))
  }

  ghost function After<V>(s: Disk<V>, parse: Text -> Option<V>, actions: seq<Action>): Disk<V>
    requires Possible(s, parse, actions)
    decreases |actions|
  {
    if actions == [] then s else After(Step(s, parse, actions[0]), parse, actions[1..])
  }

  lemma {:induction false} EveryInterleavingKeepsInv<V>(s: Disk<V>, parse: Text -> Option<V>, actions: seq<Action>)
    requires Inv(s, parse) && Possible(s, parse, actions)
    ensures Inv(After(s, parse, actions), parse)
    decreases |actions|
  {
    if actions != [] {
      StepKeepsInv(s, parse, actions[0]);
      EveryInterleavingKeepsInv(Step(s, parse, actions[0]), parse, actions[1..]);
    }
  }

  /** Under every interleaving a value read from the file was the whole content of that path at some moment between the
      start of the read and the attempt that parsed it, and a value from the cache was returned by an earlier read of
      the same path from its file; so each was the initial content or a completed replacement. */
  lemma ReadsReturnWholeContents<V>(start: Disk<V>, parse: Text -> Option<V>, actions: seq<Action>, i: nat)
    requires Untouched(start) && Possible(start, parse, actions)
    requires i < |After(start, parse, actions).returned|
    ensures var s := After(start, parse, actions);
      ReturnOk(s, parse, i) && WasWhole(s, parse, s.returned[i].path, s.returned[i].value)
  {
    UntouchedInv(start, parse);
    EveryInterleavingKeepsInv(start, parse, actions);
    ReturnWasWhole(After(start, parse, actions), parse, i);
  }

  lemma UntouchedInv<V>(s: Disk<V>, parse: Text -> Option<V>)
    requires Untouched(s)
    ensures Inv(s, parse)
  {
    forall p | Dest(p) in s.files ensures s.files[Dest(p)] in WholeOf(s, p) {
      assert s.files[Dest(p)] in Now(s, p);
    }
  }

  /** Any files can be there at the start. */
  lemma InitialIsUntouched<V>(files: map<Path, Text>)
    ensures var s: Disk<V> := Initial(files);
      Untouched(s) && forall p :: Now(s, p) == if p in files then {files[p]} else {}
  {
    var s: Disk<V> := Initial(files);
    forall p ensures WholeOf(s, p) == Now(s, p) && Now(s, p) == if p in files then {files[p]} else {} {
      assert Dest(p) in s.files <==> p in files;
    }
  }

  lemma ReturnWasWhole<V>(s: Disk<V>, parse: Text -> Option<V>, i: nat)
    requires Inv(s, parse) && i < |s.returned|
    ensures WasWhole(s, parse, s.returned[i].path, s.returned[i].value)
  {
    assert ReturnOk(s, parse, i);
    if s.returned[i].FromCache? {
      var k :| 0 <= k < i && k < |s.returned| && s.returned[k].FromFile? && s.returned[k].path == s.returned[i].path
               && s.returned[k].value == s.returned[i].value;
      assert ReturnOk(s, parse, k);
    }
  }

  /** Only a completed replacement changes a file, and then to its writer's whole text; in particular a failed
      write leaves the old content. */
  lemma OnlyReplaceChangesAFile<V>(s: Disk<V>, parse: Text -> Option<V>, a: Action, p: Path)
    requires Inv(s, parse) && Enabled(s, a)
    ensures var t := Step(s, parse, a);
      if a.Replace? && s.writers[a.w].path == p then Dest(p) in t.files && t.files[Dest(p)] == s.writers[a.w].text
      else (Dest(p) in t.files <==> Dest(p) in s.files) && (Dest(p) in s.files ==> t.files[Dest(p)] == s.files[Dest(p)])
  {
    if a.Replace? {
      assert WriterOk(s, a.w);
      var writer := s.writers[a.w];
      assert writer.text[..|writer.text|] == writer.text;
    }
  }

  // ----- what a write and a read achieve -------------------------------------------------------------

  lemma TempsAreNumbered<V>(s: Disk<V>, parse: Text -> Option<V>)
    requires Inv(s, parse)
    ensures forall n: nat | Temp(n) in s.files :: n < s.temps
  {
    forall n: nat | Temp(n) in s.files ensures n < s.temps {
      assert HasWriter(s, n);
      var w :| w in s.writers && s.writers[w].temp == n;
      assert WriterOk(s, w);
    }
  }

  /** A write that has begun and put out the first n characters. */
  lemma WriteBegun<V>(s: Disk<V>, parse: Text -> Option<V>, w: Agent, p: Path, text: Text, n: nat)
    requires Inv(s, parse) && w !in s.writers && n <= |text|
    ensures Enabled(s, Open(w, p, text)) && Enabled(Step(s, parse, Open(w, p, text)), Write(w, n))
    ensures var t := Step(Step(s, parse, Open(w, p, text)), parse, Write(w, n));
      && Temp(s.temps) !in s.files && t.files == s.files[Temp(s.temps) := text[..n]]
      && w in t.writers && t.writers[w] == Writer(p, text, s.temps, n)
  {
    TempsAreNumbered(s, parse);
  }

  /** A write that nothing disturbs is possible in every state; it leaves the file with the whole text, no temporary
      file and every other file as it was. */
  lemma WriteReplacesTheFile<V>(s: Disk<V>, parse: Text -> Option<V>, w: Agent, p: Path, text: Text)
    requires Inv(s, parse) && w !in s.writers
    ensures Possible(s, parse, [Open(w, p, text), Write(w, |text|), Replace(w)])
    ensures After(s, parse, [Open(w, p, text), Write(w, |text|), Replace(w)]).files == s.files[Dest(p) := text]
  {
    WriteBegun(s, parse, w, p, text, |text|);
    assert text[..|text|] == text;
    InThree(s, parse, Open(w, p, text), Write(w, |text|), Replace(w));
    Replaced(Step(Step(s, parse, Open(w, p, text)), parse, Write(w, |text|)), parse, w);
  }

  lemma Replaced<V>(s: Disk<V>, parse: Text -> Option<V>, w: Agent)
    requires Enabled(s, Replace(w))
    ensures var temp := Temp(s.writers[w].temp);
      Step(s, parse, Replace(w)).files == s.files[Dest(s.writers[w].path) := s.files[temp]] - {temp}
  {
  }

  /** Given up at any point, a write leaves every file as it was. */
  lemma AbandonedWriteLeavesNoTrace<V>(s: Disk<V>, parse: Text -> Option<V>, w: Agent, p: Path, text: Text, upTo: nat)
    requires Inv(s, parse) && w !in s.writers && upTo <= |text|
    ensures Possible(s, parse, [Open(w, p, text), Write(w, upTo), Abort(w)])
    ensures After(s, parse, [Open(w, p, text), Write(w, upTo), Abort(w)]).files == s.files
  {
    WriteBegun(s, parse, w, p, text, upTo);
    InThree(s, parse, Open(w, p, text), Write(w, upTo), Abort(w));
  }

  lemma InThree<V>(s: Disk<V>, parse: Text -> Option<V>, a: Action, b: Action, c: Action)
    requires Enabled(s, a) && Enabled(Step(s, parse, a), b) && Enabled(Step(Step(s, parse, a), parse, b), c)
    ensures Possible(s, parse, [a, b, c])
    ensures After(s, parse, [a, b, c]) == Step(Step(Step(s, parse, a), parse, b), parse, c)
  {
    var s1 := Step(s, parse, a);
    var s2 := Step(s1, parse, b);
    var s3 := Step(s2, parse, c);
    assert [a, b, c][1..] == [b, c] && [b, c][1..] == [c] && [c][1..] == [];
    assert Possible(s3, parse, []) && After(s3, parse, []) == s3;
    assert Possible(s2, parse, [c]) && After(s2, parse, [c]) == s3;
    assert Possible(s1, parse, [b, c]) && After(s1, parse, [b, c]) == s3;
  }

  /** A file that is there and parses is read at the first attempt: its value is returned and remembered. */
  lemma HealthyReadReturns<V>(s: Disk<V>, parse: Text -> Option<V>, r: Agent, p: Path, v: V, evicted: set<Path>)
    requires Dest(p) in s.files && parse(s.files[Dest(p)]) == Some(v) && r !in s.readers
    ensures Possible(s, parse, [StartRead(r, p), ReadFile(r, false), Remember(r, evicted)])
    ensures var t := After(s, parse, [StartRead(r, p), ReadFile(r, false), Remember(r, evicted)]);
      && t.returned == s.returned + [FromFile(p, v, {s.files[Dest(p)]})]
      && t.cache == (s.cache - evicted)[p := v]
      && t.files == s.files && t.readers == s.readers
  {
    InThree(s, parse, StartRead(r, p), ReadFile(r, false), Remember(r, evicted));
  }

  /** An attempt to read the path fails now. */
  predicate Fails<V>(s: Disk<V>, parse: Text -> Option<V>, p: Path, osError: bool)
  {
    osError || Dest(p) !in s.files || parse(s.files[Dest(p)]).None?
  }

  /** An attempt fails exactly if the system refused it, the file was absent or its text did not parse. The first
      failure is followed by a second attempt, the second by the fallback; a success holds the value in the file. */
  lemma AttemptFailsIff<V>(s: Disk<V>, parse: Text -> Option<V>, r: Agent, osError: bool)
    requires Enabled(s, ReadFile(r, osError))
    ensures var (was, now) := (s.readers[r], Step(s, parse, ReadFile(r, osError)).readers[r]);
      && (Fails(s, parse, was.path, osError) <==> !now.Parsed?)
      && (now.Parsed? ==> Dest(was.path) in s.files && Some(now.value) == parse(s.files[Dest(was.path)]))
      && (!now.Parsed? && was.second ==> now == FallingBack(was.path))
      && (!now.Parsed? && !was.second ==> now == Attempt(was.path, true, was.during))
  {
  }

  /** Nobody gets stuck: a reader can attempt, remember or fall back, and a write can be completed or given up. */
  lemma NobodyIsStuck<V>(s: Disk<V>, parse: Text -> Option<V>, who: Agent)
    requires Inv(s, parse)
    ensures who in s.readers ==>
      Enabled(s, ReadFile(who, false)) || Enabled(s, Remember(who, {})) || Enabled(s, Fallback(who))
    ensures who in s.writers ==>
      && Enabled(s, Abort(who)) && Enabled(s, Write(who, |s.writers[who].text|))
      && Enabled(Step(s, parse, Write(who, |s.writers[who].text|)), Replace(who))
  {
    assert WriterOk(s, who);
  }

  /** How many attempts of reader r fail in the course of the actions. */
  ghost function Failures<V>(s: Disk<V>, parse: Text -> Option<V>, actions: seq<Action>, r: Agent): nat
    requires Possible(s, parse, actions)
    decreases |actions|
  {
    if actions == [] then 0
    else
      var a := actions[0];
      (if a.ReadFile? && a.r == r && Fails(s, parse, s.readers[r].path, a.osError) then 1 else 0)
      + Failures(Step(s, parse, a), parse, actions[1..], r)
  }

  predicate Ends(a: Action, r: Agent)
  {
    (a.Remember? || a.Fallback?) && a.r == r
  }

  function Tried<V>(reader: Reader<V>): nat
  {
    match reader
    case Attempt(_, second, _) => if second then 1 else 0
    case Parsed(_, _, _) => 0
    case FallingBack(_) => 2
  }

  lemma OneStepIsCounted<V>(s: Disk<V>, parse: Text -> Option<V>, a: Action, r: Agent)
    requires Enabled(s, a) && r in s.readers && !Ends(a, r)
    ensures r in Step(s, parse, a).readers
    ensures var (was, now) := (s.readers[r], Step(s, parse, a).readers[r]);
      var failed := a.ReadFile? && a.r == r && Fails(s, parse, was.path, a.osError);
      && now.path == was.path
      && (was.Parsed? ==> now.Parsed?)
      && (!now.Parsed? ==> Tried(now) == Tried(was) + if failed then 1 else 0)
      && (now.Parsed? ==> !failed && Tried(was) < 2)
  {
  }

  lemma {:induction false} FailuresAreCounted<V>(s: Disk<V>, parse: Text -> Option<V>, actions: seq<Action>, r: Agent)
    requires Possible(s, parse, actions) && r in s.readers
    requires forall i | 0 <= i < |actions| :: !Ends(actions[i], r)
    ensures var t := After(s, parse, actions);
      && r in t.readers && t.readers[r].path == s.readers[r].path
      && (if t.readers[r].Parsed? then Tried(s.readers[r]) + Failures(s, parse, actions, r) < 2
          else Tried(s.readers[r]) + Failures(s, parse, actions, r) == Tried(t.readers[r]))
      && (s.readers[r].Parsed? ==> t.readers[r].Parsed? && Failures(s, parse, actions, r) == 0)
    decreases |actions|
  {
    if actions != [] {
      var t := Step(s, parse, actions[0]);
      assert !Ends(actions[0], r);
      OneStepIsCounted(s, parse, actions[0], r);
      assert forall i | 0 <= i < |actions[1..]| :: actions[1..][i] == actions[i + 1];
      FailuresAreCounted(t, parse, actions[1..], r);
    }
  }

  /** Whatever happens between its start and its end, a read ends without a value exactly if two of its attempts failed
      and its path is not cached; if it is, it returns the cached value, and with fewer failures one from the file. */
  lemma ReadEndsWithoutAValueIff<V>(s: Disk<V>, parse: Text -> Option<V>, r: Agent, p: Path, between: seq<Action>,
                                    end: Action)
    requires Enabled(s, StartRead(r, p)) && Possible(Step(s, parse, StartRead(r, p)), parse, between)
    requires (forall i | 0 <= i < |between| :: !Ends(between[i], r)) && Ends(end, r)
    requires Enabled(After(Step(s, parse, StartRead(r, p)), parse, between), end)
    ensures var start := Step(s, parse, StartRead(r, p));
      var twice := Failures(start, parse, between, r) == 2;
      var before := After(start, parse, between);
      var after := Step(before, parse, end);
      && (after.returned == before.returned <==> twice && p !in before.cache)
      && (twice && p in before.cache ==> after.returned == before.returned + [FromCache(p, before.cache[p])])
      && (!twice ==> |after.returned| == |before.returned| + 1 && after.returned[|before.returned|].FromFile?
                     && after.returned[|before.returned|].path == p)
  {
    FailuresAreCounted(Step(s, parse, StartRead(r, p)), parse, between, r);
  }
}
