/** The character-management component: a character list that is seeded from
    a prop and then edited locally, an add/edit dialog, and the "Generate
    Story" chat request. React's state setters only swap in whole values, so
    every handler is a function from the old component state to the new one. */
module Story {
  import opened Wrappers
  import opened Sequences

  /** One row of the table. Records that came back from the extraction
      endpoint carry no `id` at all, so the id is optional; JavaScript's `===`
      on two missing ids is true, as `==` on `None` is here. */
  datatype Character = Character(id: Option<int>, name: string, description: string, personality: string)

  datatype Role = User | Assistant

  datatype Message = Message(role: Role, content: string)

  /** What `JSON.parse` makes of a message: not JSON at all, or a JSON value
      whose `characters` field is truthy or not. */
  datatype ParseOutcome = NotJson | Json(charactersTruthy: bool)

  /** The component's state: the `characters` prop, the local list seeded from
      it, the dialog flag, the character being edited (`null` in add mode) and
      the chat messages. */
  datatype StoryState = StoryState(
    characters: seq<Character>,
    local: seq<Character>,
    showDialog: bool,
    selected: Option<Character>,
    messages: seq<Message>)

  /** The state right after mounting: the local list is a copy of the prop,
      the dialog is closed, nothing is selected and there are no messages. */
  function Mount(characters: seq<Character>): (st: StoryState)
    ensures st.local == st.characters == characters
    ensures !st.showDialog && st.selected.None? && st.messages == []
  {
    StoryState(characters, characters, false, None, [])
  }

  // ---------------------------------------------------------------- opening the dialog

  /** "Add Character": clear the selection and open the dialog. */
  function AddCharacter(st: StoryState): (st': StoryState)
    ensures st'.showDialog && st'.selected.None?
    ensures st'.local == st.local && st'.characters == st.characters && st'.messages == st.messages
  {
    st.(selected := None, showDialog := true)
  }

  /** The edit icon of a row: select that row's character and open the dialog. */
  function EditCharacter(st: StoryState, c: Character): (st': StoryState)
    ensures st'.showDialog && st'.selected == Some(c)
    ensures st'.local == st.local && st'.characters == st.characters && st'.messages == st.messages
  {
    st.(selected := Some(c), showDialog := true)
  }

  // ---------------------------------------------------------------- delete

  /** `cs.filter(char => char.id !== id)`: never longer than the list, and
      no record left has the deleted id. */
  function Delete(cs: seq<Character>, id: Option<int>): (r: seq<Character>)
    ensures |r| <= |cs|
    ensures forall i :: 0 <= i < |r| ==> r[i].id != id
  {
    if cs == [] then [] else (if cs[0].id != id then [cs[0]] else []) + Delete(cs[1..], id)
  }

  /** `a` is `b` with some elements left out, the others in their order. */
  predicate Subsequence(a: seq<Character>, b: seq<Character>)
    decreases |b|
  {
    a == [] || (b != [] && ((a[0] == b[0] && Subsequence(a[1..], b[1..])) || Subsequence(a, b[1..])))
  }

  /** The trash icon of a row. */
  function DeleteCharacter(st: StoryState, id: Option<int>): (st': StoryState)
    ensures st'.local == Delete(st.local, id)
    ensures st'.characters == st.characters && st'.showDialog == st.showDialog
    ensures st'.selected == st.selected && st'.messages == st.messages
  {
    st.(local := Delete(st.local, id))
  }

  /** A record survives exactly when it was there and has another id. */
  lemma {:induction false} DeleteMembership(cs: seq<Character>, id: Option<int>, c: Character)
    ensures c in Delete(cs, id) <==> c in cs && c.id != id
  {
    if cs != [] {
      DeleteMembership(cs[1..], id, c);
      assert cs == [cs[0]] + cs[1..];
    }
  }

  /** Every record with another id keeps its number of copies; the records
      with that id are all gone. */
  lemma {:induction false} DeleteCounts(cs: seq<Character>, id: Option<int>, c: Character)
    ensures multiset(Delete(cs, id))[c] == if c.id == id then 0 else multiset(cs)[c]
  {
    if cs != [] {
      var x, t := cs[0], cs[1..];
      assert cs == [x] + t;
      DeleteCounts(t, id, c);
      DeleteCons(x, t, id);
      var h := if x.id != id then [x] else [];
      assert multiset(Delete(cs, id)) == multiset(h) + multiset(Delete(t, id));
      assert multiset(cs) == multiset([x]) + multiset(t);
    }
  }

  /** The surviving records keep their original relative order. */
  lemma {:induction false} DeleteKeepsOrder(cs: seq<Character>, id: Option<int>)
    ensures Subsequence(Delete(cs, id), cs)
  {
    if cs != [] {
      DeleteKeepsOrder(cs[1..], id);
      var r := Delete(cs[1..], id);
      if cs[0].id != id {
        assert Delete(cs, id) == [cs[0]] + r;
        assert ([cs[0]] + r)[1..] == r;
      } else {
        assert Delete(cs, id) == r;
        SubsequenceSkip(r, cs);
      }
    }
  }

  lemma {:induction false} SubsequenceSkip(a: seq<Character>, b: seq<Character>)
    requires b != [] && Subsequence(a, b[1..])
    ensures Subsequence(a, b)
  {
  }

  /** Deleting splits over concatenation. */
  lemma {:induction false} DeleteConcat(a: seq<Character>, b: seq<Character>, id: Option<int>)
    ensures Delete(a + b, id) == Delete(a, id) + Delete(b, id)
  {
    if a == [] {
      assert a + b == b;
    } else {
      ConcatHeadTail(a, b);
      DeleteConcat(a[1..], b, id);
      ConcatAssoc(if a[0].id != id then [a[0]] else [], Delete(a[1..], id), Delete(b, id));
    }
  }

  lemma {:induction false} DeleteCons(x: Character, cs: seq<Character>, id: Option<int>)
    ensures Delete([x] + cs, id) == (if x.id != id then [x] else []) + Delete(cs, id)
  {
    assert ([x] + cs)[1..] == cs;
  }

  /** Deleting an id that no record has changes nothing. */
  lemma {:induction false} DeleteAbsent(cs: seq<Character>, id: Option<int>)
    requires forall c :: c in cs ==> c.id != id
    ensures Delete(cs, id) == cs
  {
    if cs != [] {
      assert cs[0] in cs;
      assert forall c :: c in cs[1..] ==> c in cs;
      DeleteAbsent(cs[1..], id);
      assert cs == [cs[0]] + cs[1..];
    }
  }

  /** Deleting an id that every record has empties the list. */
  lemma {:induction false} DeleteAllWithId(cs: seq<Character>, id: Option<int>)
    requires forall i :: 0 <= i < |cs| ==> cs[i].id == id
    ensures Delete(cs, id) == []
  {
    if cs != [] {
      DeleteAllWithId(cs[1..], id);
    }
  }

  /** Deleting the same id twice is deleting it once. */
  lemma {:induction false} DeleteIdempotent(cs: seq<Character>, id: Option<int>)
    ensures Delete(Delete(cs, id), id) == Delete(cs, id)
  {
    forall c | c in Delete(cs, id)
      ensures c.id != id
    {
      DeleteMembership(cs, id, c);
    }
    DeleteAbsent(Delete(cs, id), id);
  }

  // ---------------------------------------------------------------- save

  /** `cs.map(char => char.id === c.id ? c : char)`. */
  function ReplaceById(cs: seq<Character>, c: Character): (r: seq<Character>)
    ensures |r| == |cs|
  {
    if cs == [] then [] else [if cs[0].id == c.id then c else cs[0]] + ReplaceById(cs[1..], c)
  }

  /** Position by position: a record with the saved id becomes the saved
      record, every other record is unchanged. */
  lemma {:induction false} ReplaceByIdPointwise(cs: seq<Character>, c: Character)
    ensures forall i :: 0 <= i < |cs| ==>
      ReplaceById(cs, c)[i] == if cs[i].id == c.id then c else cs[i]
  {
    if cs != [] {
      ReplaceByIdPointwise(cs[1..], c);
      var r := ReplaceById(cs, c);
      forall i | 0 <= i < |cs|
        ensures r[i] == if cs[i].id == c.id then c else cs[i]
      {
        if i > 0 {
          assert r[i] == ReplaceById(cs[1..], c)[i - 1];
          assert cs[i] == cs[1..][i - 1];
        }
      }
    }
  }

  /** When no record has the saved id, an edit-mode save changes nothing. */
  lemma {:induction false} ReplaceByIdAbsent(cs: seq<Character>, c: Character)
    requires forall d :: d in cs ==> d.id != c.id
    ensures ReplaceById(cs, c) == cs
  {
    ReplaceByIdPointwise(cs, c);
    assert forall i :: 0 <= i < |cs| ==> cs[i] in cs;
  }

  /** Saving the same record twice is saving it once. */
  lemma {:induction false} ReplaceByIdIdempotent(cs: seq<Character>, c: Character)
    ensures ReplaceById(ReplaceById(cs, c), c) == ReplaceById(cs, c)
  {
    var r := ReplaceById(cs, c);
    ReplaceByIdPointwise(cs, c);
    ReplaceByIdPointwise(r, c);
  }

  /** The record an add-mode save appends: the dialog's record with id
      `length + 1`. */
  function NewRecord(cs: seq<Character>, c: Character): (n: Character)
    ensures n.id == Some(|cs| + 1)
    ensures n.name == c.name && n.description == c.description && n.personality == c.personality
  {
    c.(id := Some(|cs| + 1))
  }

  /** The dialog's Save button after the handler ran: in edit mode (a
      character is selected) the records with the saved id are replaced, in
      add mode the new record is appended; either way the dialog closes. The
      selection itself is left as it was. */
  function SaveCharacter(st: StoryState, c: Character): (st': StoryState)
    ensures |st'.local| == if st.selected.Some? then |st.local| else |st.local| + 1
    ensures !st'.showDialog
    ensures st'.characters == st.characters && st'.selected == st.selected && st'.messages == st.messages
  {
    var local := if st.selected.Some? then ReplaceById(st.local, c) else st.local + [NewRecord(st.local, c)];
    st.(local := local, showDialog := false)
  }

  /** Edit mode: the records with the saved id become the saved record, the
      others are unchanged. */
  lemma {:induction false} SaveEdit(st: StoryState, c: Character)
    requires st.selected.Some?
    ensures var l := SaveCharacter(st, c).local;
      && |l| == |st.local|
      && forall i :: 0 <= i < |l| ==> l[i] == if st.local[i].id == c.id then c else st.local[i]
  {
    ReplaceByIdPointwise(st.local, c);
  }

  /** Add mode: the old list followed by one record, the saved one with id
      `length + 1`. */
  lemma {:induction false} SaveAdd(st: StoryState, c: Character)
    requires st.selected.None?
    ensures var l := SaveCharacter(st, c).local;
      && l[..|st.local|] == st.local
      && l[|st.local|] == c.(id := Some(|st.local| + 1))
  {
    var l := SaveCharacter(st, c).local;
    assert l == st.local + [NewRecord(st.local, c)];
  }

  /** The record the Save button hands to the handler: the selected
      character's id, or `length + 1` when there is none (no selection, or a
      selected record without an id), and the three text fields. */
  function DialogRecord(st: StoryState, name: string, description: string, personality: string): (c: Character)
    ensures st.selected.Some? && st.selected.value.id.Some? ==> c.id == st.selected.value.id
    ensures st.selected.None? || st.selected.value.id.None? ==> c.id == Some(|st.local| + 1)
    ensures c.name == name && c.description == description && c.personality == personality
  {
    var id := if st.selected.Some? && st.selected.value.id.Some? then st.selected.value.id else Some(|st.local| + 1);
    Character(id, name, description, personality)
  }

  /** Pressing Save with the three text fields. */
  function SubmitDialog(st: StoryState, name: string, description: string, personality: string): (st': StoryState)
    ensures !st'.showDialog
  {
    SaveCharacter(st, DialogRecord(st, name, description, personality))
  }

  /** Editing a character that has an id keeps the length and overwrites
      exactly the records that share that id. */
  lemma {:induction false} SubmitEditWithId(st: StoryState, k: int, name: string, description: string, personality: string)
    requires st.selected.Some? && st.selected.value.id == Some(k)
    ensures var l := SubmitDialog(st, name, description, personality).local;
      && |l| == |st.local|
      && forall i :: 0 <= i < |l| ==>
           l[i] == if st.local[i].id == Some(k) then Character(Some(k), name, description, personality) else st.local[i]
  {
    SaveEdit(st, DialogRecord(st, name, description, personality));
  }

  /** Adding after a delete can repeat an id: with ids 1 and 2, deleting 1
      and adding gives two records with id 2. */
  lemma {:induction false} AddAfterDeleteRepeatsId()
    ensures var a := Character(Some(1), "A", "", "");
      var b := Character(Some(2), "B", "", "");
      var st := AddCharacter(DeleteCharacter(Mount([a, b]), Some(1)));
      var l := SubmitDialog(st, "C", "", "").local;
      |l| == 2 && l[0].id == l[1].id == Some(2)
  {
    var a := Character(Some(1), "A", "", "");
    var b := Character(Some(2), "B", "", "");
    assert Delete([a, b], Some(1)) == [b] by {
      assert [a, b][1..] == [b];
      assert Delete([b], Some(1)) == [b] + Delete([], Some(1)) by {
        assert [b][1..] == [];
      }
    }
  }

  /** Editing a record without an id saves it under `length + 1`: the
      records that have that id are overwritten, and every record without an
      id, the edited one among them, keeps its old contents. */
  lemma {:induction false} EditWithoutIdOverwritesOther(st: StoryState, name: string, description: string, personality: string)
    requires st.selected.Some? && st.selected.value.id.None?
    ensures var saved := Character(Some(|st.local| + 1), name, description, personality);
      var l := SubmitDialog(st, name, description, personality).local;
      && l == ReplaceById(st.local, saved)
      && |l| == |st.local|
      && (forall i :: 0 <= i < |l| && st.local[i].id == Some(|st.local| + 1) ==> l[i] == saved)
      && (forall i :: 0 <= i < |l| && st.local[i].id != Some(|st.local| + 1) ==> l[i] == st.local[i])
      && (forall i :: 0 <= i < |l| && st.local[i].id.None? ==> l[i] == st.local[i])
  {
    var c := DialogRecord(st, name, description, personality);
    assert c == Character(Some(|st.local| + 1), name, description, personality);
    SaveEdit(st, c);
  }

  /** An instance: with rows `X` (no id) and `Y` (id 3), editing `X`
      rewrites `Y` and leaves `X` as it was. */
  lemma {:induction false} EditWithoutIdExample()
    ensures var x := Character(None, "X", "d", "p");
      var y := Character(Some(3), "Y", "d", "p");
      var st := EditCharacter(Mount([x, y]), x);
      SubmitDialog(st, "Z", "d", "p").local == [x, Character(Some(3), "Z", "d", "p")]
  {
    var x := Character(None, "X", "d", "p");
    var y := Character(Some(3), "Y", "d", "p");
    var z := Character(Some(3), "Z", "d", "p");
    assert ReplaceById([x, y], z) == [x, z] by {
      assert [x, y][1..] == [y];
      assert ReplaceById([y], z) == [z] + ReplaceById([], z) by {
        assert [y][1..] == [];
      }
    }
  }

  // ---------------------------------------------------------------- messages

  /** `filterMessageContent`: the prompt message (JSON with a truthy
      `characters` field) is hidden, everything else is shown as is.
      `parse` stands for `JSON.parse` followed by the truthiness test. */
  function FilterMessageContent(parse: string -> ParseOutcome, content: string): (shown: string)
    ensures shown == [] || shown == content
    ensures shown == [] <==> parse(content) == Json(true) || content == []
    ensures parse(content) != Json(true) ==> shown == content
  {
    match parse(content)
    case NotJson => content
    case Json(truthy) => if truthy then "" else content
  }

  /** The paragraphs the story pane renders, one per message. */
  function ShownMessages(parse: string -> ParseOutcome, ms: seq<Message>): (ps: seq<string>)
    ensures |ps| == |ms|
    ensures forall i :: 0 <= i < |ms| ==> ps[i] == FilterMessageContent(parse, ms[i].content)
  {
    if ms == [] then [] else [FilterMessageContent(parse, ms[0].content)] + ShownMessages(parse, ms[1..])
  }

  /** "Generate Story": the messages are cleared and exactly one user message
      is sent, holding the JSON of the `characters` prop (not of the locally
      edited list). `stringify` stands for `JSON.stringify({ characters })`. */
  function GenerateStory(st: StoryState, stringify: seq<Character> -> string): (st': StoryState)
    ensures |st'.messages| == 1 && st'.messages[0].role == User
    ensures st'.local == st.local && st'.characters == st.characters
    ensures st'.showDialog == st.showDialog && st'.selected == st.selected
  {
    st.(messages := [Message(User, stringify(st.characters))])
  }

  /** The request depends on the prop only: local edits do not reach it. */
  lemma {:induction false} GenerateIgnoresLocalEdits(st1: StoryState, st2: StoryState, stringify: seq<Character> -> string)
    requires st1.characters == st2.characters
    ensures GenerateStory(st1, stringify).messages == GenerateStory(st2, stringify).messages
    ensures GenerateStory(st1, stringify).messages[0].content == stringify(st1.characters)
  {
  }

  /** Whatever was deleted, added or edited locally, the story request is the
      one the freshly mounted component would send. */
  lemma {:induction false} GenerateAfterEdits(characters: seq<Character>, st: StoryState, stringify: seq<Character> -> string)
    requires st.characters == characters
    ensures GenerateStory(st, stringify).messages == GenerateStory(Mount(characters), stringify).messages
  {
    GenerateIgnoresLocalEdits(st, Mount(characters), stringify);
  }

  /** When the request's JSON parses back with its `characters` field (an
      array, which is always truthy), the pane shows it as an empty
      paragraph. */
  lemma {:induction false} PromptIsHidden(st: StoryState, parse: string -> ParseOutcome, stringify: seq<Character> -> string)
    requires parse(stringify(st.characters)) == Json(true)
    ensures ShownMessages(parse, GenerateStory(st, stringify).messages) == [""]
  {
    var ms := GenerateStory(st, stringify).messages;
    assert ms[0].content == stringify(st.characters);
  }
}
