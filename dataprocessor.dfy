/** js/dataProcessor.js: the master tables of the network, built from the movie
    records read from the YAML database. Absent or falsy text fields of a record
    (`undefined`, `null`, `''`) are the empty string here; a movie title is an
    `Option` because an absent title also shows up in the movie selector. */
module DataProcessor {
  import opened Strings
  import opened Config

  /** One entry of a movie's `character_list`. `tmdbPersonId` is `None` when the
      field is absent. */
  datatype Character = Character(name: string, actorName: string, group: string,
                                 description: string, tmdbPersonId: Option<nat>)

  /** One entry of a movie's `relationships`. A `strength` of 0 stands for any
      falsy strength (absent, 0). */
  datatype Relationship = Relationship(source: string, target: string, relType: string,
                                       strength: int, sentiment: string, description: string)

  /** One movie record. `characters` and `relationships` are `None` when the field
      is absent or not an array. */
  datatype Movie = Movie(title: Option<string>, characters: Option<seq<Character>>,
                         relationships: Option<seq<Relationship>>, plot: string)

  /** An entry of `globallyUniqueNodesMasterList`; `name` is its `label`. */
  datatype Node = Node(id: nat, name: string, actorName: string, rawGroup: string,
                       tooltip: string, movieTitle: string, tmdbPersonId: Option<nat>)

  /** An entry of `globallyUniqueEdgesMasterList` (its `rawArrows` is always
      `{ to: { enabled: false } }` and is left out). */
  datatype Edge = Edge(from: nat, to: nat, rawLabel: string, rawStrength: int, tooltip: string,
                       rawBaseColor: string, rawSentiment: string, movieTitle: string)

  // ---------------------------------------------------------------------------
  // Building one node or edge

  /** `s || d` for a text field. */
  function Or(s: string, d: string): (r: string)
    ensures r != [] <==> s != [] || d != []
  {
    if s == [] then d else s
  }

  /** A movie the processing does not skip: its title is present and not empty. */
  predicate Titled(m: Movie) {
    m.title.Some? && m.title.value != []
  }

  /** `${movieTitle}_${character.name}`: the key of a character in the map. */
  function Key(title: string, name: string): string {
    title + "_" + name
  }

  /** `config.sentimentColors[sentiment] || config.sentimentColors.neutral`. */
  function SentimentColor(sentiment: string): string {
    if sentiment == "positive" then SentimentPositive
    else if sentiment == "negative" then SentimentNegative
    else if sentiment == "complicated" then SentimentComplicated
    else SentimentNeutral
  }

  /** The node pushed for a named character of the movie `title`: the given id,
      the character's name as its label, and a default for each absent field. */
  function MakeNode(title: string, c: Character, id: nat): (n: Node)
    ensures n.id == id && n.name == c.name && n.movieTitle == title
    ensures c.actorName != [] ==> n.actorName == c.actorName
    ensures c.actorName == [] ==> n.actorName == "Unknown Actor"
    ensures c.group != [] ==> n.rawGroup == c.group
    ensures c.group == [] ==> n.rawGroup == "Unknown"
    ensures c.tmdbPersonId != Some(0) ==> n.tmdbPersonId == c.tmdbPersonId
    ensures c.tmdbPersonId == Some(0) ==> n.tmdbPersonId == None
  {
    Node(id, c.name, Or(c.actorName, "Unknown Actor"), Or(c.group, "Unknown"),
      Or(c.name, "Unknown Character") + "\n(Played by: " + Or(c.actorName, "Unknown Actor") + ")\n\n" +
        Or(c.description, "No description available."),
      title, if c.tmdbPersonId == Some(0) then None else c.tmdbPersonId)
  }

  /** The edge pushed for a relationship of the movie `title` whose ends resolved
      to the ids `from` and `to`: a non-zero strength, a sentiment, and a colour of
      the palette that is the neutral one unless the sentiment is one of the three
      others. */
  function MakeEdge(title: string, r: Relationship, from: nat, to: nat): (e: Edge)
    ensures e.from == from && e.to == to && e.movieTitle == title && e.rawLabel == r.relType
    ensures r.strength != 0 ==> e.rawStrength == r.strength
    ensures r.strength == 0 ==> e.rawStrength == 1
    ensures r.sentiment != [] ==> e.rawSentiment == r.sentiment
    ensures r.sentiment == [] ==> e.rawSentiment == "neutral"
    ensures r.sentiment == "positive" ==> e.rawBaseColor == SentimentPositive
    ensures r.sentiment == "negative" ==> e.rawBaseColor == SentimentNegative
    ensures r.sentiment == "complicated" ==> e.rawBaseColor == SentimentComplicated
    ensures e.rawBaseColor == SentimentNeutral <==> r.sentiment !in {"positive", "negative", "complicated"}
  {
    Edge(from, to, r.relType, if r.strength == 0 then 1 else r.strength,
      Or(r.relType, "Relationship") + ": " + r.source + " & " + r.target + "\n\n" +
        Or(r.description, "No specific details."),
      SentimentColor(r.sentiment), Or(r.sentiment, "neutral"), title)
  }

  // ---------------------------------------------------------------------------
  // The tables the processing builds

  /** A character the first pass turns into a node, with its movie's title. */
  datatype Entry = Entry(title: string, ch: Character)

  function EntryKey(e: Entry): string {
    Key(e.title, e.ch.name)
  }

  /** The named characters among `cs`, in order. */
  function NamedEntries(title: string, cs: seq<Character>): seq<Entry>
    decreases |cs|
  {
    if cs == [] then []
    else
      NamedEntries(title, cs[..|cs| - 1]) +
        (if cs[|cs| - 1].name != [] then [Entry(title, cs[|cs| - 1])] else [])
  }

  /** The characters of one movie that get a node. */
  function MovieEntries(m: Movie): seq<Entry> {
    if Titled(m) && m.characters.Some? then NamedEntries(m.title.value, m.characters.value) else []
  }

  /** The characters of all movies that get a node, in traversal order: the
      position of a character in this sequence is its id. */
  function Entries(ms: seq<Movie>): seq<Entry>
    decreases |ms|
  {
    if ms == [] then [] else Entries(ms[..|ms| - 1]) + MovieEntries(ms[|ms| - 1])
  }

  /** `globallyUniqueNodesMasterList` for the entries `es`. */
  function NodesOf(es: seq<Entry>): (ns: seq<Node>)
    ensures |ns| == |es|
  {
    seq(|es|, i requires 0 <= i < |es| => MakeNode(es[i].title, es[i].ch, i))
  }

  /** `characterNameToGlobalIdMap` for the entries `es`: each key assigned the id
      of its entry, a later entry overwriting an earlier one with the same key. */
  function KeyMap(es: seq<Entry>): map<string, nat>
    decreases |es|
  {
    if es == [] then map[] else KeyMap(es[..|es| - 1])[EntryKey(es[|es| - 1]) := |es| - 1]
  }

  /** A relationship the second pass turns into an edge: both ends named and both
      keys in the map. */
  predicate Resolves(title: string, r: Relationship, cmap: map<string, nat>) {
    r.source != [] && r.target != [] && Key(title, r.source) in cmap && Key(title, r.target) in cmap
  }

  /** The edges of the relationships `rs` of the movie `title`, in order. */
  function RelEdges(title: string, rs: seq<Relationship>, cmap: map<string, nat>): seq<Edge>
    decreases |rs|
  {
    if rs == [] then []
    else
      var r := rs[|rs| - 1];
      RelEdges(title, rs[..|rs| - 1], cmap) +
        (if Resolves(title, r, cmap) then [MakeEdge(title, r, cmap[Key(title, r.source)], cmap[Key(title, r.target)])] else [])
  }

  function MovieEdges(m: Movie, cmap: map<string, nat>): seq<Edge> {
    if Titled(m) && m.relationships.Some? then RelEdges(m.title.value, m.relationships.value, cmap) else []
  }

  /** `globallyUniqueEdgesMasterList` for the movies `ms` and the finished map. */
  function EdgesOf(ms: seq<Movie>, cmap: map<string, nat>): seq<Edge>
    decreases |ms|
  {
    if ms == [] then [] else EdgesOf(ms[..|ms| - 1], cmap) + MovieEdges(ms[|ms| - 1], cmap)
  }

  /** The movies of the loaded data: none when it is not an array. */
  function MovieList(data: Option<seq<Movie>>): seq<Movie> {
    if data.Some? then data.value else []
  }

  // ---------------------------------------------------------------------------
  // The movie selector's titles

  /** JavaScript's default string order, by code point here (JavaScript compares
      UTF-16 code units), a proper prefix first. */
  predicate TextBefore(a: string, b: string)
    decreases |a|
  {
    if a == [] then b != []
    else if b == [] then false
    else if a[0] != b[0] then a[0] < b[0]
    else TextBefore(a[1..], b[1..])
  }

  /** The order of `Array.prototype.sort()` without a comparator: strings by
      `TextBefore`, `undefined` after all of them. */
  predicate TitleBefore(a: Option<string>, b: Option<string>) {
    match (a, b)
    case (Some(x), Some(y)) => TextBefore(x, y)
    case (Some(_), None) => true
    case (None, _) => false
  }

  /** Insert `x` before the first element it comes before. */
  function InsertTitle(x: Option<string>, t: seq<Option<string>>): (r: seq<Option<string>>)
    ensures multiset(r) == multiset(t) + multiset{x}
  {
    if t == [] then [x]
    else if TitleBefore(x, t[0]) then [x] + t
    else
      assert t == [t[0]] + t[1..];
      [t[0]] + InsertTitle(x, t[1..])
  }

  /** `.sort()` of the titles. */
  function SortTitles(s: seq<Option<string>>): seq<Option<string>>
    decreases |s|
  {
    if s == [] then [] else InsertTitle(s[|s| - 1], SortTitles(s[..|s| - 1]))
  }

  /** `[...new Set(s)]`: the first occurrence of each title, in order. */
  function Dedup(s: seq<Option<string>>): seq<Option<string>>
    decreases |s|
  {
    if s == [] then []
    else Dedup(s[..|s| - 1]) + (if s[|s| - 1] in s[..|s| - 1] then [] else [s[|s| - 1]])
  }

  /** `allMoviesDataFromYaml.map(m => m.movie_title)`. */
  function TitlesOf(ms: seq<Movie>): (ts: seq<Option<string>>)
    ensures |ts| == |ms|
  {
    seq(|ms|, i requires 0 <= i < |ms| => ms[i].title)
  }

  /** The selector's titles: the distinct titles of the movies, sorted. */
  function SelectorTitles(ms: seq<Movie>): seq<Option<string>> {
    SortTitles(Dedup(TitlesOf(ms)))
  }

  const NoMoviesAvailable: string := "No movies available"

  /** The loaded data and the master tables built from it, the module-level state
      of js/dataProcessor.js. */
  class DataStore {
    /** `allMoviesDataFromYaml`; `None` when the loaded value is not an array. */
    var moviesData: Option<seq<Movie>>
    /** `characterNameToGlobalIdMap`. */
    var characterMap: map<string, nat>
    /** `globallyUniqueNodesMasterList`. */
    var nodes: seq<Node>
    /** `globallyUniqueEdgesMasterList`. */
    var edges: seq<Edge>

    /** The state when the module is loaded. */
    constructor ()
      ensures moviesData == Some([]) && characterMap == map[] && nodes == [] && edges == []
    {
      moviesData := Some([]);
      characterMap := map[];
      nodes := [];
      edges := [];
    }

    /** `_processAllDataFromYamlInternal`: reset the map and both lists, then a
        pass over the characters of every titled movie and a pass over its
        relationships. The new state depends on the loaded data alone, so a
        second call leaves it as it is. */
    method ProcessAll()
      modifies this
      ensures moviesData == old(moviesData)
      ensures nodes == NodesOf(Entries(MovieList(moviesData)))
      ensures characterMap == KeyMap(Entries(MovieList(moviesData)))
      ensures edges == EdgesOf(MovieList(moviesData), characterMap)
    {
      var globalNodeIdCounter := 0;
      characterMap := map[];
      nodes := [];
      edges := [];
      if moviesData.None? {
        return;
      }
      var ms := moviesData.value;
      var i := 0;
      while i < |ms|
        invariant 0 <= i <= |ms| && moviesData == old(moviesData) && edges == []
        invariant nodes == NodesOf(Entries(ms[..i])) && characterMap == KeyMap(Entries(ms[..i]))
        invariant globalNodeIdCounter == |Entries(ms[..i])|
      {
        EntriesStep(ms, i);
        globalNodeIdCounter := AddMovieCharacters(ms[i], globalNodeIdCounter, Entries(ms[..i]));
        i := i + 1;
      }
      assert ms[..|ms|] == ms;
      var cmap := characterMap;
      i := 0;
      assert ms[..0] == [];
      while i < |ms|
        invariant 0 <= i <= |ms| && moviesData == old(moviesData) && characterMap == cmap
        invariant nodes == NodesOf(Entries(ms))
        invariant edges == EdgesOf(ms[..i], cmap)
      {
        EdgesStep(ms, i, cmap);
        AddMovieRelationships(ms[i]);
        i := i + 1;
      }
    }

    /** The first pass's work on one movie: an untitled movie or one without a
        character list adds nothing. */
    method AddMovieCharacters(m: Movie, counter: nat, ghost before: seq<Entry>) returns (next: nat)
      requires nodes == NodesOf(before) && characterMap == KeyMap(before) && counter == |before|
      modifies this
      ensures moviesData == old(moviesData) && edges == old(edges)
      ensures nodes == NodesOf(before + MovieEntries(m))
      ensures characterMap == KeyMap(before + MovieEntries(m))
      ensures next == |before + MovieEntries(m)|
    {
      if !Titled(m) {
        assert before + MovieEntries(m) == before;
        return counter;
      }
      if m.characters.None? {
        assert before + MovieEntries(m) == before;
        return counter;
      }
      next := AddCharacters(m.title.value, m.characters.value, counter, before);
    }

    /** The second pass's work on one movie. */
    method AddMovieRelationships(m: Movie)
      modifies this
      ensures moviesData == old(moviesData) && characterMap == old(characterMap) && nodes == old(nodes)
      ensures edges == old(edges) + MovieEdges(m, characterMap)
    {
      if !Titled(m) || m.relationships.None? {
        assert edges + MovieEdges(m, characterMap) == edges;
        return;
      }
      AddRelationships(m.title.value, m.relationships.value);
    }

    /** The `forEach` over the characters of one movie. */
    method AddCharacters(title: string, cs: seq<Character>, counter: nat, ghost before: seq<Entry>)
        returns (globalNodeIdCounter: nat)
      requires nodes == NodesOf(before) && characterMap == KeyMap(before) && counter == |before|
      modifies this
      ensures moviesData == old(moviesData) && edges == old(edges)
      ensures nodes == NodesOf(before + NamedEntries(title, cs))
      ensures characterMap == KeyMap(before + NamedEntries(title, cs))
      ensures globalNodeIdCounter == |before + NamedEntries(title, cs)|
    {
      globalNodeIdCounter := counter;
      var j := 0;
      assert before + NamedEntries(title, cs[..0]) == before;
      while j < |cs|
        invariant 0 <= j <= |cs| && moviesData == old(moviesData) && edges == old(edges)
        invariant nodes == NodesOf(before + NamedEntries(title, cs[..j]))
        invariant characterMap == KeyMap(before + NamedEntries(title, cs[..j]))
        invariant globalNodeIdCounter == |before + NamedEntries(title, cs[..j])|
      {
        NamedStep(title, cs, j);
        if cs[j].name != [] {
          var globalId := globalNodeIdCounter;
          globalNodeIdCounter := globalNodeIdCounter + 1;
          var characterKey := Key(title, cs[j].name);
          assert characterKey == EntryKey(Entry(title, cs[j]));
          NodesSnoc(before + NamedEntries(title, cs[..j]), Entry(title, cs[j]));
          KeyMapSnoc(before + NamedEntries(title, cs[..j]), Entry(title, cs[j]));
          SeqAssoc(before, NamedEntries(title, cs[..j]), [Entry(title, cs[j])]);
          characterMap := characterMap[characterKey := globalId];
          nodes := nodes + [MakeNode(title, cs[j], globalId)];
        } else {
          assert NamedEntries(title, cs[..j]) + [] == NamedEntries(title, cs[..j]);
        }
        j := j + 1;
      }
      assert cs[..|cs|] == cs;
    }

    /** The `forEach` over the relationships of one movie. */
    method AddRelationships(title: string, rs: seq<Relationship>)
      modifies this
      ensures moviesData == old(moviesData) && characterMap == old(characterMap) && nodes == old(nodes)
      ensures edges == old(edges) + RelEdges(title, rs, characterMap)
    {
      var j := 0;
      while j < |rs|
        invariant 0 <= j <= |rs|
        invariant moviesData == old(moviesData) && characterMap == old(characterMap) && nodes == old(nodes)
        invariant edges == old(edges) + RelEdges(title, rs[..j], characterMap)
      {
        RelStep(title, rs, j, characterMap);
        var rel := rs[j];
        SeqAssoc(old(edges), RelEdges(title, rs[..j], characterMap),
          if Resolves(title, rs[j], characterMap)
          then [MakeEdge(title, rs[j], characterMap[Key(title, rs[j].source)], characterMap[Key(title, rs[j].target)])]
          else []);
        if rel.source != [] && rel.target != [] {
          var fromKey := Key(title, rel.source);
          var toKey := Key(title, rel.target);
          if fromKey in characterMap && toKey in characterMap {
            var fromId := characterMap[fromKey];
            var toId := characterMap[toKey];
            edges := edges + [MakeEdge(title, rel, fromId, toId)];
          }
        }
        j := j + 1;
      }
      assert rs[..|rs|] == rs;
    }

    /** `loadAndProcessData`, with the fetched and parsed YAML as a parameter
        (`None` for a fetch or parse failure): on success the data is stored and
        processed; on failure the data is emptied and the tables keep their old
        contents. */
    method LoadAndProcessData(fetched: Option<Option<seq<Movie>>>) returns (ok: bool)
      modifies this
      ensures ok == fetched.Some?
      ensures ok ==> (moviesData == fetched.value &&
                      nodes == NodesOf(Entries(MovieList(moviesData))) &&
                      characterMap == KeyMap(Entries(MovieList(moviesData))) &&
                      edges == EdgesOf(MovieList(moviesData), characterMap))
      ensures !ok ==> (moviesData == Some([]) &&
                       nodes == old(nodes) && characterMap == old(characterMap) && edges == old(edges))
    {
      if fetched.None? {
        moviesData := Some([]);
        return false;
      }
      moviesData := fetched.value;
      ProcessAll();
      return true;
    }

    /** The title list and the return value of `populateMovieSelector`: the
        distinct titles, sorted, and the first of them, or "No movies available"
        when there is none. The value `.map` is called on must be an array. */
    method PopulateMovieSelector() returns (movieTitles: seq<Option<string>>, selected: Option<string>)
      requires moviesData.Some?
      ensures movieTitles == SelectorTitles(moviesData.value)
      ensures selected == if movieTitles == [] then Some(NoMoviesAvailable) else movieTitles[0]
    {
      var ms := moviesData.value;
      var titles := TitlesOf(ms);
      var distinct: seq<Option<string>> := [];
      var seen: set<Option<string>> := {};
      var i := 0;
      while i < |titles|
        invariant 0 <= i <= |titles|
        invariant distinct == Dedup(titles[..i])
        invariant forall t :: t in seen <==> t in titles[..i]
      {
        TakeSnoc(titles, i + 1);
        if titles[i] !in seen {
          distinct := distinct + [titles[i]];
          seen := seen + {titles[i]};
        }
        i := i + 1;
      }
      assert titles[..|titles|] == titles;
      movieTitles := SortTitles(distinct);
      selected := if |movieTitles| > 0 then movieTitles[0] else Some(NoMoviesAvailable);
    }
  }

  // ---------------------------------------------------------------------------
  // Steps of the loops

  lemma EntriesStep(ms: seq<Movie>, i: nat)
    requires i < |ms|
    ensures Entries(ms[..i + 1]) == Entries(ms[..i]) + MovieEntries(ms[i])
  {
    assert ms[..i + 1][..i] == ms[..i];
  }

  lemma EdgesStep(ms: seq<Movie>, i: nat, cmap: map<string, nat>)
    requires i < |ms|
    ensures EdgesOf(ms[..i + 1], cmap) == EdgesOf(ms[..i], cmap) + MovieEdges(ms[i], cmap)
  {
    assert ms[..i + 1][..i] == ms[..i];
  }

  lemma NamedStep(title: string, cs: seq<Character>, j: nat)
    requires j < |cs|
    ensures NamedEntries(title, cs[..j + 1]) ==
      NamedEntries(title, cs[..j]) + (if cs[j].name != [] then [Entry(title, cs[j])] else [])
  {
    assert cs[..j + 1][..j] == cs[..j];
  }

  lemma RelStep(title: string, rs: seq<Relationship>, j: nat, cmap: map<string, nat>)
    requires j < |rs|
    ensures RelEdges(title, rs[..j + 1], cmap) == RelEdges(title, rs[..j], cmap) +
      (if Resolves(title, rs[j], cmap)
       then [MakeEdge(title, rs[j], cmap[Key(title, rs[j].source)], cmap[Key(title, rs[j].target)])]
       else [])
  {
    assert rs[..j + 1][..j] == rs[..j];
  }

  /** One more entry: one more node, whose id is its position, and its key mapped
      to that id. */
  lemma NodesSnoc(es: seq<Entry>, e: Entry)
    ensures NodesOf(es + [e]) == NodesOf(es) + [MakeNode(e.title, e.ch, |es|)]
  {
    forall k | 0 <= k <= |es| ensures NodesOf(es + [e])[k] == (NodesOf(es) + [MakeNode(e.title, e.ch, |es|)])[k] {
      if k < |es| {
        assert (es + [e])[k] == es[k];
      }
    }
  }

  lemma KeyMapSnoc(es: seq<Entry>, e: Entry)
    ensures KeyMap(es + [e]) == KeyMap(es)[EntryKey(e) := |es|]
  {
    assert (es + [e])[..|es|] == es;
  }

  // ---------------------------------------------------------------------------
  // What the tables promise

  /** The characters of one movie that get a node: exactly its named ones. */
  lemma {:induction false} NamedEntriesExactly(title: string, cs: seq<Character>)
    ensures forall e :: e in NamedEntries(title, cs) <==> e.title == title && e.ch in cs && e.ch.name != []
    decreases |cs|
  {
    if cs != [] {
      NamedEntriesExactly(title, cs[..|cs| - 1]);
      assert cs == cs[..|cs| - 1] + [cs[|cs| - 1]];
    }
  }

  /** `e` is a named character of a titled movie of `ms` that lists characters. */
  ghost predicate Named(ms: seq<Movie>, e: Entry) {
    e.ch.name != [] &&
    exists i :: 0 <= i < |ms| && Titled(ms[i]) && ms[i].title.value == e.title &&
      ms[i].characters.Some? && e.ch in ms[i].characters.value
  }

  lemma NamedInit(ms: seq<Movie>, e: Entry)
    requires ms != []
    ensures Named(ms, e) <==> Named(ms[..|ms| - 1], e) || e in MovieEntries(ms[|ms| - 1])
  {
    var m := ms[|ms| - 1];
    if Titled(m) && m.characters.Some? {
      NamedEntriesExactly(m.title.value, m.characters.value);
    }
    if Named(ms, e) {
      var i :| 0 <= i < |ms| && Titled(ms[i]) && ms[i].title.value == e.title &&
        ms[i].characters.Some? && e.ch in ms[i].characters.value;
      if i < |ms| - 1 {
        assert ms[i] == ms[..|ms| - 1][i];
      }
    }
    if Named(ms[..|ms| - 1], e) {
      var i :| 0 <= i < |ms| - 1 && Titled(ms[..|ms| - 1][i]) && ms[..|ms| - 1][i].title.value == e.title &&
        ms[..|ms| - 1][i].characters.Some? && e.ch in ms[..|ms| - 1][i].characters.value;
      assert ms[i] == ms[..|ms| - 1][i];
    }
  }

  /** The characters that get a node: exactly the named characters of the titled
      movies. */
  lemma {:induction false} EntriesExactly(ms: seq<Movie>)
    ensures forall e :: e in Entries(ms) <==> Named(ms, e)
    decreases |ms|
  {
    if ms != [] {
      EntriesExactly(ms[..|ms| - 1]);
      forall e ensures e in Entries(ms) <==> Named(ms, e) {
        NamedInit(ms, e);
      }
    }
  }

  /** Node `i` has id `i` and stands for a named character of a titled movie, and
      every such character has a node with its name and its movie's title. */
  lemma NodesExactly(ms: seq<Movie>)
    ensures forall i :: 0 <= i < |NodesOf(Entries(ms))| ==>
      NodesOf(Entries(ms))[i].id == i && Named(ms, Entries(ms)[i]) &&
      NodesOf(Entries(ms))[i].name == Entries(ms)[i].ch.name &&
      NodesOf(Entries(ms))[i].movieTitle == Entries(ms)[i].title
    ensures forall e :: Named(ms, e) <==> exists i :: 0 <= i < |NodesOf(Entries(ms))| && Entries(ms)[i] == e
  {
    EntriesExactly(ms);
    forall e | Named(ms, e) ensures exists i :: 0 <= i < |NodesOf(Entries(ms))| && Entries(ms)[i] == e {
      assert e in Entries(ms);
    }
    forall i | 0 <= i < |NodesOf(Entries(ms))| ensures Named(ms, Entries(ms)[i]) {
      assert Entries(ms)[i] in Entries(ms);
    }
  }

  /** The map sends every key to the id of the last entry with that key; so every
      mapped id is a node's, and a later duplicate overwrites an earlier one. */
  lemma {:induction false} KeyMapLast(es: seq<Entry>)
    ensures forall k :: k in KeyMap(es) ==>
      KeyMap(es)[k] < |es| && EntryKey(es[KeyMap(es)[k]]) == k &&
      forall j :: KeyMap(es)[k] < j < |es| ==> EntryKey(es[j]) != k
    decreases |es|
  {
    if es != [] {
      KeyMapLast(es[..|es| - 1]);
      forall k | k in KeyMap(es) && k != EntryKey(es[|es| - 1])
        ensures KeyMap(es)[k] < |es| && EntryKey(es[KeyMap(es)[k]]) == k &&
          forall j :: KeyMap(es)[k] < j < |es| ==> EntryKey(es[j]) != k
      {
        assert KeyMap(es)[k] == KeyMap(es[..|es| - 1])[k];
        assert es[KeyMap(es)[k]] == es[..|es| - 1][KeyMap(es)[k]];
        forall j | KeyMap(es)[k] < j < |es| - 1 ensures EntryKey(es[j]) != k {
          assert es[j] == es[..|es| - 1][j];
        }
      }
    }
  }

  /** Every entry's key is in the map. */
  lemma {:induction false} KeyMapCovers(es: seq<Entry>)
    ensures forall i :: 0 <= i < |es| ==> EntryKey(es[i]) in KeyMap(es)
    decreases |es|
  {
    if es != [] {
      KeyMapCovers(es[..|es| - 1]);
      forall i | 0 <= i < |es| - 1 ensures EntryKey(es[i]) in KeyMap(es) {
        assert es[i] == es[..|es| - 1][i];
      }
    }
  }

  /** A relationship's edge: taken from a resolving relationship of the movie. */
  ghost predicate FromRelationship(title: string, rs: seq<Relationship>, cmap: map<string, nat>, e: Edge) {
    exists r :: r in rs && Resolves(title, r, cmap) &&
      e == MakeEdge(title, r, cmap[Key(title, r.source)], cmap[Key(title, r.target)])
  }

  /** Every edge comes from a relationship that resolves, and every relationship
      that resolves gives an edge. */
  lemma {:induction false} RelEdgesExactly(title: string, rs: seq<Relationship>, cmap: map<string, nat>)
    ensures forall k :: 0 <= k < |RelEdges(title, rs, cmap)| ==> FromRelationship(title, rs, cmap, RelEdges(title, rs, cmap)[k])
    ensures forall r :: r in rs && Resolves(title, r, cmap) ==>
      MakeEdge(title, r, cmap[Key(title, r.source)], cmap[Key(title, r.target)]) in RelEdges(title, rs, cmap)
    decreases |rs|
  {
    if rs != [] {
      var init := rs[..|rs| - 1];
      var r := rs[|rs| - 1];
      RelEdgesExactly(title, init, cmap);
      var before := RelEdges(title, init, cmap);
      forall k | 0 <= k < |RelEdges(title, rs, cmap)|
        ensures FromRelationship(title, rs, cmap, RelEdges(title, rs, cmap)[k])
      {
        if k < |before| {
          assert RelEdges(title, rs, cmap)[k] == before[k];
          assert FromRelationship(title, init, cmap, before[k]);
          var q :| q in init && Resolves(title, q, cmap) &&
            before[k] == MakeEdge(title, q, cmap[Key(title, q.source)], cmap[Key(title, q.target)]);
          assert q in rs;
        } else {
          assert r in rs;
        }
      }
      assert forall q :: q in rs ==> q in init || q == r;
    }
  }

  /** An edge made from a resolving relationship of one of the titled movies. */
  ghost predicate FromMovies(ms: seq<Movie>, cmap: map<string, nat>, e: Edge) {
    exists i :: 0 <= i < |ms| && Titled(ms[i]) && ms[i].relationships.Some? &&
      FromRelationship(ms[i].title.value, ms[i].relationships.value, cmap, e)
  }

  /** The edges of a titled movie that lists relationships. */
  ghost predicate MovieEdge(ms: seq<Movie>, cmap: map<string, nat>, i: int, r: Relationship) {
    0 <= i < |ms| && Titled(ms[i]) && ms[i].relationships.Some? && r in ms[i].relationships.value &&
    Resolves(ms[i].title.value, r, cmap)
  }

  /** Every edge comes from a resolving relationship of a titled movie, and every
      such relationship gives an edge. */
  lemma {:induction false} EdgesOfExactly(ms: seq<Movie>, cmap: map<string, nat>)
    ensures forall k :: 0 <= k < |EdgesOf(ms, cmap)| ==> FromMovies(ms, cmap, EdgesOf(ms, cmap)[k])
    ensures forall i, r :: MovieEdge(ms, cmap, i, r) ==>
      MakeEdge(ms[i].title.value, r, cmap[Key(ms[i].title.value, r.source)], cmap[Key(ms[i].title.value, r.target)])
        in EdgesOf(ms, cmap)
    decreases |ms|
  {
    if ms != [] {
      var init := ms[..|ms| - 1];
      EdgesOfExactly(init, cmap);
      var m := ms[|ms| - 1];
      if Titled(m) && m.relationships.Some? {
        RelEdgesExactly(m.title.value, m.relationships.value, cmap);
      }
      forall k | 0 <= k < |EdgesOf(ms, cmap)| ensures FromMovies(ms, cmap, EdgesOf(ms, cmap)[k]) {
        if k < |EdgesOf(init, cmap)| {
          assert EdgesOf(ms, cmap)[k] == EdgesOf(init, cmap)[k];
          var i :| 0 <= i < |init| && Titled(init[i]) && init[i].relationships.Some? &&
            FromRelationship(init[i].title.value, init[i].relationships.value, cmap, EdgesOf(init, cmap)[k]);
          assert ms[i] == init[i];
        } else {
          assert EdgesOf(ms, cmap)[k] == MovieEdges(m, cmap)[k - |EdgesOf(init, cmap)|];
        }
      }
      forall i, r | MovieEdge(ms, cmap, i, r) ensures
        MakeEdge(ms[i].title.value, r, cmap[Key(ms[i].title.value, r.source)], cmap[Key(ms[i].title.value, r.target)])
          in EdgesOf(ms, cmap)
      {
        if i < |init| {
          assert ms[i] == init[i];
          assert MovieEdge(init, cmap, i, r);
        }
      }
    }
  }

  /** The edges' ends are the ids of nodes. */
  lemma EdgesEndsAreNodes(ms: seq<Movie>)
    ensures forall k :: 0 <= k < |EdgesOf(ms, KeyMap(Entries(ms)))| ==>
      EdgesOf(ms, KeyMap(Entries(ms)))[k].from < |NodesOf(Entries(ms))| &&
      EdgesOf(ms, KeyMap(Entries(ms)))[k].to < |NodesOf(Entries(ms))|
  {
    KeyMapLast(Entries(ms));
    EdgesOfExactly(ms, KeyMap(Entries(ms)));
  }

  // ---------------------------------------------------------------------------
  // The order of the selector's titles

  lemma {:induction false} TextBeforeOrder(a: string, b: string, c: string)
    ensures !TextBefore(a, a)
    ensures a != b ==> TextBefore(a, b) || TextBefore(b, a)
    ensures TextBefore(a, b) ==> !TextBefore(b, a)
    ensures TextBefore(a, b) && TextBefore(b, c) ==> TextBefore(a, c)
    decreases |a|
  {
    if a != [] && b != [] && c != [] {
      TextBeforeOrder(a[1..], b[1..], c[1..]);
      if a[0] == b[0] && a[1..] == b[1..] {
        assert a == [a[0]] + a[1..] && b == [b[0]] + b[1..];
      }
    } else if a != [] && b != [] {
      TextBeforeOrder(a[1..], b[1..], b[1..]);
      if a[0] == b[0] && a[1..] == b[1..] {
        assert a == [a[0]] + a[1..] && b == [b[0]] + b[1..];
      }
    } else if a != [] {
      TextBeforeOrder(a[1..], a[1..], a[1..]);
    }
  }

  lemma TitleBeforeOrder(a: Option<string>, b: Option<string>, c: Option<string>)
    ensures !TitleBefore(a, a)
    ensures a != b ==> TitleBefore(a, b) || TitleBefore(b, a)
    ensures TitleBefore(a, b) && TitleBefore(b, c) ==> TitleBefore(a, c)
  {
    if a.Some? && b.Some? && c.Some? {
      TextBeforeOrder(a.value, b.value, c.value);
    } else if a.Some? && b.Some? {
      TextBeforeOrder(a.value, b.value, b.value);
    } else if a.Some? {
      TextBeforeOrder(a.value, a.value, a.value);
    }
  }

  /** Strictly increasing in the sort order. */
  predicate Increasing(s: seq<Option<string>>) {
    forall i, j :: 0 <= i < j < |s| ==> TitleBefore(s[i], s[j])
  }

  predicate DistinctTitles(s: seq<Option<string>>) {
    forall i, j :: 0 <= i < j < |s| ==> s[i] != s[j]
  }

  lemma {:induction false} InsertTitleIncreasing(x: Option<string>, t: seq<Option<string>>)
    requires Increasing(t) && x !in t
    ensures Increasing(InsertTitle(x, t))
    decreases |t|
  {
    if t != [] {
      TitleBeforeOrder(x, t[0], t[0]);
      if TitleBefore(x, t[0]) {
        forall j | 0 < j < |t| + 1 ensures TitleBefore(x, ([x] + t)[j]) {
          TitleBeforeOrder(x, t[0], t[j - 1]);
        }
      } else {
        assert x !in t[1..];
        InsertTitleIncreasing(x, t[1..]);
        var tail := InsertTitle(x, t[1..]);
        forall j | 0 <= j < |tail| ensures TitleBefore(t[0], tail[j]) {
          assert tail[j] in multiset(tail);
          if tail[j] != x {
            assert tail[j] in t[1..];
          }
        }
      }
    }
  }

  lemma {:induction false} SortTitlesIncreasing(s: seq<Option<string>>)
    requires DistinctTitles(s)
    ensures Increasing(SortTitles(s))
    ensures multiset(SortTitles(s)) == multiset(s)
    decreases |s|
  {
    if s != [] {
      DistinctInit(s);
      SortTitlesIncreasing(s[..|s| - 1]);
      InsertTitleIncreasing(s[|s| - 1], SortTitles(s[..|s| - 1]));
      LastSplit(s);
    }
  }

  lemma DistinctInit(s: seq<Option<string>>)
    requires s != [] && DistinctTitles(s)
    ensures DistinctTitles(s[..|s| - 1]) && s[|s| - 1] !in multiset(s[..|s| - 1])
  {
  }

  lemma LastSplit<T>(s: seq<T>)
    requires s != []
    ensures multiset(s) == multiset(s[..|s| - 1]) + multiset{s[|s| - 1]}
  {
    assert s == s[..|s| - 1] + [s[|s| - 1]];
  }

  lemma {:induction false} DedupFacts(s: seq<Option<string>>)
    ensures DistinctTitles(Dedup(s))
    ensures forall t :: t in Dedup(s) <==> t in s
    decreases |s|
  {
    if s != [] {
      var init := s[..|s| - 1];
      DedupFacts(init);
      assert s == init + [s[|s| - 1]];
    }
  }

  /** The selector lists each title of the movies once, in strictly increasing
      order, so its first entry is the least title. */
  lemma SelectorTitlesFacts(ms: seq<Movie>)
    ensures Increasing(SelectorTitles(ms))
    ensures forall t :: t in SelectorTitles(ms) <==> exists i :: 0 <= i < |ms| && ms[i].title == t
    ensures SelectorTitles(ms) == [] <==> ms == []
  {
    var d := Dedup(TitlesOf(ms));
    DedupFacts(TitlesOf(ms));
    SortTitlesIncreasing(d);
    forall t ensures t in SelectorTitles(ms) <==> t in d {
      assert t in SelectorTitles(ms) <==> t in multiset(SelectorTitles(ms));
    }
    forall t ensures t in TitlesOf(ms) <==> exists i :: 0 <= i < |ms| && ms[i].title == t {
      if t in TitlesOf(ms) {
        var i :| 0 <= i < |ms| && TitlesOf(ms)[i] == t;
      }
      if exists i :: 0 <= i < |ms| && ms[i].title == t {
        var i :| 0 <= i < |ms| && ms[i].title == t;
        assert TitlesOf(ms)[i] == t;
      }
    }
    if ms != [] {
      assert TitlesOf(ms)[0] in d;
    }
  }
}
