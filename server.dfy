/** The notes API (app.py): the role kept in the session, the access gate in
    front of the note routes, login and logout, and the note store with its
    list, create and delete routes. The store is the list of notes the JSON
    file holds; the session is that of one client. */
module Server {
  import opened Records

  datatype Role = Admin | Reader

  /** What a route asks of the session: `login_required()` or
      `login_required(role="admin")`. */
  datatype Need = AnyRole | AdminOnly

  /** The gate's decision: 401, 403, or run the route's handler. */
  datatype Gate = Unauthorized | Forbidden | Proceed

  /** `login_required`: without a role in the session the route answers 401;
      a route for admins answers 403 to any other role; otherwise the handler
      runs. */
  function Guard(session: Option<Role>, need: Need): (g: Gate)
    ensures g == Unauthorized <==> session.None?
    ensures g == Forbidden <==> session.Some? && need.AdminOnly? && !session.value.Admin?
    ensures g == Proceed <==> session.Some? && (need.AnyRole? || session.value.Admin?)
  {
    if session.None? then Unauthorized
    else if need.AdminOnly? && !session.value.Admin? then Forbidden
    else Proceed
  }

  /** The role `login` grants for the `password` field of the request (None
      when the field is absent) against the two configured passwords (None
      when the environment variable is unset). The admin password is tried
      first, and an absent field equals an unset password. */
  function LoginRole(password: Option<string>, adminPassword: Option<string>, readerPassword: Option<string>): (r: Option<Role>)
    ensures r == Some(Admin) <==> password == adminPassword
    ensures r == Some(Reader) <==> password != adminPassword && password == readerPassword
    ensures r == None <==> password != adminPassword && password != readerPassword
  {
    if password == adminPassword then Some(Admin)
    else if password == readerPassword then Some(Reader)
    else None
  }

  /** The JSON body of a reply. */
  datatype Body =
    | Error(message: string)
    | LoggedIn(role: Role)
    | NoteList(notes: seq<Note>)
    | Created(note: Note)
    | Done
    | RedirectTo(path: string)

  datatype Response = Response(status: int, body: Body)

  /** The reply of a route whose gate did not let the request through. */
  function Refusal(g: Gate): (r: Response)
    requires g != Proceed
    ensures g == Unauthorized ==> r == Response(401, Error("Unauthorized"))
    ensures g == Forbidden ==> r == Response(403, Error("Forbidden"))
  {
    if g == Unauthorized then Response(401, Error("Unauthorized")) else Response(403, Error("Forbidden"))
  }

  /** The note `create_note` adds to `notes`: its id is one more than the
      number of notes, and a missing field is the empty string. */
  function NewNote(notes: seq<Note>, title: Option<string>, content: Option<string>): (n: Note)
    ensures n.id == |notes| + 1 && n.id >= 1
    ensures title.Some? ==> n.title == title.value
    ensures title.None? ==> n.title == ""
    ensures content.Some? ==> n.content == content.value
    ensures content.None? ==> n.content == ""
  {
    Note(|notes| + 1, title.GetOr(""), content.GetOr(""))
  }

  /** `[n for n in notes if n["id"] != id]` */
  function WithoutId(notes: seq<Note>, id: int): (r: seq<Note>)
    ensures |r| <= |notes|
  {
    if notes == [] then []
    else if notes[0].id == id then WithoutId(notes[1..], id)
    else [notes[0]] + WithoutId(notes[1..], id)
  }

  /** Deleting keeps exactly the notes with another id. */
  lemma {:induction false} WithoutIdMembers(notes: seq<Note>, id: int)
    ensures forall n :: n in WithoutId(notes, id) <==> n in notes && n.id != id
  {
    if notes != [] {
      WithoutIdMembers(notes[1..], id);
      assert notes == [notes[0]] + notes[1..];
    }
  }

  /** Deleting an id no note has changes nothing. */
  lemma {:induction false} WithoutAbsentId(notes: seq<Note>, id: int)
    requires forall j :: 0 <= j < |notes| ==> notes[j].id != id
    ensures WithoutId(notes, id) == notes
  {
    if notes != [] {
      WithoutAbsentId(notes[1..], id);
      assert notes == [notes[0]] + notes[1..];
    }
  }

  /** Filtering distributes over concatenation, so the kept notes stay in
      their relative order. */
  lemma {:induction false} WithoutIdAppend(a: seq<Note>, b: seq<Note>, id: int)
    ensures WithoutId(a + b, id) == WithoutId(a, id) + WithoutId(b, id)
  {
    if a == [] {
      assert a + b == b;
    } else {
      var head := if a[0].id == id then [] else [a[0]];
      assert a + b == [a[0]] + (a[1..] + b);
      assert a == [a[0]] + a[1..];
      calc {
        WithoutId(a + b, id);
        { WithoutIdCons(a[0], a[1..] + b, id); }
        head + WithoutId(a[1..] + b, id);
        { WithoutIdAppend(a[1..], b, id); }
        head + (WithoutId(a[1..], id) + WithoutId(b, id));
        { NotesAssoc(head, WithoutId(a[1..], id), WithoutId(b, id)); }
        (head + WithoutId(a[1..], id)) + WithoutId(b, id);
        { WithoutIdCons(a[0], a[1..], id); }
        WithoutId(a, id) + WithoutId(b, id);
      }
    }
  }

  lemma NotesAssoc(x: seq<Note>, y: seq<Note>, z: seq<Note>)
    ensures x + (y + z) == (x + y) + z
  {
  }

  lemma WithoutIdCons(n: Note, rest: seq<Note>, id: int)
    ensures WithoutId([n] + rest, id) == (if n.id == id then [] else [n]) + WithoutId(rest, id)
  {
    assert ([n] + rest)[1..] == rest;
  }

  /** How many notes carry the id. */
  function CountId(notes: seq<Note>, id: int): (k: nat) {
    if notes == [] then 0 else (if notes[0].id == id then 1 else 0) + CountId(notes[1..], id)
  }

  /** Deleting removes exactly the notes with the id. */
  lemma {:induction false} WithoutIdLength(notes: seq<Note>, id: int)
    ensures |WithoutId(notes, id)| == |notes| - CountId(notes, id)
  {
    if notes != [] {
      WithoutIdLength(notes[1..], id);
    }
  }

  /** In notes numbered `start`, `start + 1`, ... each id occurs once. */
  lemma {:induction false} CountConsecutiveIds(notes: seq<Note>, start: int, id: int)
    requires forall i :: 0 <= i < |notes| ==> notes[i].id == start + i
    ensures CountId(notes, id) == if start <= id < start + |notes| then 1 else 0
  {
    if notes != [] {
      CountConsecutiveIds(notes[1..], start + 1, id);
    }
  }

  /** Ids are not kept unique: when the notes are numbered 1..n and any note
      but the last is deleted, the next note created gets the id n of the
      last note, which is still there. */
  lemma CreateAfterDeleteReusesId(notes: seq<Note>, id: int, title: Option<string>, content: Option<string>)
    requires forall i :: 0 <= i < |notes| ==> notes[i].id == i + 1
    requires 1 <= id < |notes|
    ensures notes[|notes| - 1] in WithoutId(notes, id)
    ensures NewNote(WithoutId(notes, id), title, content).id == notes[|notes| - 1].id
  {
    CountConsecutiveIds(notes, 1, id);
    WithoutIdLength(notes, id);
    WithoutIdMembers(notes, id);
  }

  class NoteServer {
    const adminPassword: Option<string>
    const readerPassword: Option<string>
    /** The notes held by the store file. */
    var notes: seq<Note>
    /** `session["user_role"]`, None while it is not set. */
    var session: Option<Role>

    constructor (adminPassword: Option<string>, readerPassword: Option<string>, stored: seq<Note>)
      ensures this.adminPassword == adminPassword && this.readerPassword == readerPassword
      ensures notes == stored && session == None
    {
      this.adminPassword := adminPassword;
      this.readerPassword := readerPassword;
      notes := stored;
      session := None;
    }

    /** `POST /login`: a matching password stores its role in the session;
        any other leaves the session as it was and answers 401. */
    method Login(password: Option<string>) returns (resp: Response)
      modifies this`session
      ensures LoginRole(password, adminPassword, readerPassword).Some? ==>
        && session == LoginRole(password, adminPassword, readerPassword)
        && resp == Response(200, LoggedIn(session.value))
      ensures LoginRole(password, adminPassword, readerPassword).None? ==>
        session == old(session) && resp == Response(401, Error("Invalid password"))
    {
      var role := LoginRole(password, adminPassword, readerPassword);
      if role.Some? {
        session := role;
        resp := Response(200, LoggedIn(role.value));
      } else {
        resp := Response(401, Error("Invalid password"));
      }
    }

    /** `GET /logout`: clears the session, after which every guarded route
        answers 401. */
    method Logout() returns (resp: Response)
      modifies this`session
      ensures session == None
      ensures forall need :: Guard(session, need) == Unauthorized
      ensures resp == Response(302, RedirectTo("/"))
    {
      session := None;
      resp := Response(302, RedirectTo("/"));
    }

    /** `GET /api/notes`, open to any role. */
    method GetNotes() returns (resp: Response)
      ensures session.Some? ==> resp == Response(200, NoteList(notes))
      ensures session.None? ==> resp == Response(401, Error("Unauthorized"))
    {
      var gate := Guard(session, AnyRole);
      if gate != Proceed {
        return Refusal(gate);
      }
      resp := Response(200, NoteList(notes));
    }

    /** `POST /api/notes`, for admins: appends one note at the end, numbered
        one more than the number of notes, and leaves the others as they
        were. `title` and `content` are the request's fields, None when
        absent. */
    method CreateNote(title: Option<string>, content: Option<string>) returns (resp: Response)
      modifies this`notes
      ensures Guard(session, AdminOnly) == Proceed ==>
        && notes == old(notes) + [NewNote(old(notes), title, content)]
        && resp == Response(201, Created(NewNote(old(notes), title, content)))
      ensures Guard(session, AdminOnly) != Proceed ==>
        notes == old(notes) && resp == Refusal(Guard(session, AdminOnly))
    {
      var gate := Guard(session, AdminOnly);
      if gate != Proceed {
        return Refusal(gate);
      }
      var note := NewNote(notes, title, content);
      notes := notes + [note];
      resp := Response(201, Created(note));
    }

    /** `DELETE /api/notes/<id>`, for admins: keeps the notes with other ids
        and reports success whether or not a note was removed. The route's
        `int` converter only accepts unsigned digits, so the id is a natural
        number. */
    method DeleteNote(id: nat) returns (resp: Response)
      modifies this`notes
      ensures Guard(session, AdminOnly) == Proceed ==>
        notes == WithoutId(old(notes), id) && resp == Response(200, Done)
      ensures Guard(session, AdminOnly) != Proceed ==>
        notes == old(notes) && resp == Refusal(Guard(session, AdminOnly))
    {
      var gate := Guard(session, AdminOnly);
      if gate != Proceed {
        return Refusal(gate);
      }
      notes := WithoutId(notes, id);
      resp := Response(200, Done);
    }
  }
}
