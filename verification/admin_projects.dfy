/** The admin projects form: the comma list of technologies, the request a submit sends,
    and the form resets after a successful submit or "Cancel Edit". The network round trip
    itself is a parameter (`succeeded`). */
module AdminProjects {
  import opened Wrappers
  import opened Text

  /** A stored project as the server returns it. */
  datatype Project = Project(
    id: string, title: string, description: string, image: string,
    technologies: seq<string>, liveUrl: string, githubUrl: string,
    category: string, featured: bool, order: int)

  /** The form record: like a project, but with the technologies as one editable string. */
  datatype Form = Form(
    title: string, description: string, image: string,
    technologies: string, liveUrl: string, githubUrl: string,
    category: string, featured: bool, order: int)

  /** The page state: the form and the project being edited, if any. */
  datatype Page = Page(form: Form, editing: Option<Project>)

  datatype Verb = Post | Put

  /** The body of a submit: the form with its technologies split into a list. */
  datatype Payload = Payload(
    title: string, description: string, image: string,
    technologies: seq<string>, liveUrl: string, githubUrl: string,
    category: string, featured: bool, order: int)

  datatype Request = Request(verb: Verb, url: string, body: Payload)

  const Separator: char := ','
  const Collection: string := "/api/projects"

  /** The empty form the page starts with and returns to. */
  function DefaultForm(): (f: Form)
    ensures f.technologies == "" && !f.featured && f.order == 0
    ensures f.category == "Web Development"
  {
    Form("", "", "", "", "", "", "Web Development", false, 0)
  }

  /** A technology entry that survives the edit round trip unchanged: no surrounding
      white space and no comma. */
  predicate PlainEntry(t: string) {
    IsTrimmed(t) && Separator !in t
  }

  /** A non-empty list of plain entries. */
  predicate PlainList(ts: seq<string>) {
    |ts| > 0 && forall i :: 0 <= i < |ts| ==> PlainEntry(ts[i])
  }

  function TrimAll(pieces: seq<string>): (r: seq<string>)
    ensures |r| == |pieces|
    ensures forall i :: 0 <= i < |r| ==> r[i] == Trim(pieces[i])
  {
    if |pieces| == 0 then [] else [Trim(pieces[0])] + TrimAll(pieces[1..])
  }

  /** The submitted list: `technologies.split(",").map(t => t.trim())`. Entry `i` is the
      `i`-th comma-separated piece of the string with its white space trimmed. */
  function ParseTechnologies(s: string): (r: seq<string>)
    ensures |r| == Count(s, Separator) + 1
    ensures forall i :: 0 <= i < |r| ==> r[i] == Trim(Split(s, Separator)[i])
    ensures forall i :: 0 <= i < |r| ==> PlainEntry(r[i])
  {
    var pieces := Split(s, Separator);
    var r := TrimAll(pieces);
    assert forall i :: 0 <= i < |r| ==> Separator !in r[i] by {
      forall i | 0 <= i < |r| ensures Separator !in r[i] {
        TrimNoNew(pieces[i], Separator);
      }
    }
    r
  }

  /** The editable string shown when a project is opened: `technologies.join(", ")`. */
  function FormatTechnologies(ts: seq<string>): string {
    Join(ts, ", ")
  }

  /** Opening a project for editing (`handleEdit`). */
  function Edit(page: Page, p: Project): (r: Page)
    ensures r.editing == Some(p)
    ensures r.form.title == p.title && r.form.category == p.category
    ensures PlainList(p.technologies) ==> ParseTechnologies(r.form.technologies) == p.technologies
  {
    var r := Page(Form(p.title, p.description, p.image, FormatTechnologies(p.technologies),
                       p.liveUrl, p.githubUrl, p.category, p.featured, p.order),
                  Some(p));
    if PlainList(p.technologies) then TechnologiesRoundTrip(p.technologies); r else r
  }

  /** Editing then submitting gives back the list that was opened, provided every entry
      is plain and there is at least one. */
  lemma {:induction false} TechnologiesRoundTrip(ts: seq<string>)
    requires PlainList(ts)
    ensures ParseTechnologies(FormatTechnologies(ts)) == ts
  {
    RoundTripAfter("", ts);
    assert "" + Join(ts, ", ") == Join(ts, ", ");
  }

  /** The round trip, for a join that follows a piece prefix `pre` of at most one space. */
  lemma {:induction false} RoundTripAfter(pre: string, ts: seq<string>)
    requires pre == "" || pre == " "
    requires PlainList(ts)
    ensures TrimAll(Split(pre + Join(ts, ", "), Separator)) == ts
    decreases |ts|
  {
    if |ts| == 1 {
      RoundTripOne(pre, ts);
    } else {
      var head := pre + ts[0];
      var rest := ts[1..];
      PlainRest(ts);
      var tail := " " + Join(rest, ", ");
      var pieces := Split(pre + Join(ts, ", "), Separator);
      assert pieces == [head] + Split(tail, Separator) by {
        HeadPiece(pre, ts[0]);
        JoinStep(pre, ts);
        SplitCons(head, Separator, tail);
      }
      assert TrimAll(Split(tail, Separator)) == rest by {
        RoundTripAfter(" ", rest);
      }
      assert Trim(head) == ts[0] by {
        HeadPiece(pre, ts[0]);
      }
      TrimAllCons(head, Split(tail, Separator));
      HeadAndRest(ts);
    }
  }

  /** The round trip of a single entry. */
  lemma RoundTripOne(pre: string, ts: seq<string>)
    requires pre == "" || pre == " "
    requires |ts| == 1 && PlainEntry(ts[0])
    ensures TrimAll(Split(pre + Join(ts, ", "), Separator)) == ts
  {
    var head := pre + ts[0];
    assert Split(pre + Join(ts, ", "), Separator) == [head] by {
      HeadPiece(pre, ts[0]);
      SplitNone(head, Separator);
    }
    assert Trim(head) == ts[0] by {
      HeadPiece(pre, ts[0]);
    }
    assert TrimAll([head]) == [ts[0]] by {
      assert [head][1..] == [];
    }
    assert ts == [ts[0]];
  }

  /** Dropping the first entry keeps a list of two or more plain entries plain. */
  lemma PlainRest(ts: seq<string>)
    requires PlainList(ts) && |ts| >= 2
    ensures PlainList(ts[1..])
  {
    forall i | 0 <= i < |ts| - 1 ensures PlainEntry(ts[1..][i]) {
      assert ts[1..][i] == ts[i + 1];
    }
  }

  /** The first piece holds no comma and trims back to the entry. */
  lemma HeadPiece(pre: string, t: string)
    requires pre == "" || pre == " "
    requires PlainEntry(t)
    ensures Separator !in pre + t
    ensures Trim(pre + t) == t
  {
    if pre == "" {
      assert pre + t == t;
      TrimTrimmed(t);
    } else {
      TrimAfterSpace(' ', t);
    }
  }

  /** A join of two or more entries is the first entry, a comma and the space-led rest. */
  lemma JoinStep(pre: string, ts: seq<string>)
    requires |ts| >= 2
    ensures pre + Join(ts, ", ") == (pre + ts[0]) + [Separator] + (" " + Join(ts[1..], ", "))
  {
  }

  lemma HeadAndRest(ts: seq<string>)
    requires |ts| > 0
    ensures ts == [ts[0]] + ts[1..]
  {
  }

  lemma TrimAllCons(head: string, pieces: seq<string>)
    ensures TrimAll([head] + pieces) == [Trim(head)] + TrimAll(pieces)
  {
    assert ([head] + pieces)[1..] == pieces;
  }

  /** An empty list does not survive the round trip: it comes back as one blank entry. */
  lemma EmptyListComesBackBlank()
    ensures ParseTechnologies(FormatTechnologies([])) == [""]
  {
    assert Split("", Separator) == [""];
  }

  /** The request `handleSubmit` sends: `PUT` to the edited project's address while
      editing, `POST` to the collection otherwise, with the parsed technologies. */
  function SubmitRequest(page: Page): (r: Request)
    ensures r.verb == Put <==> page.editing.Some?
    ensures page.editing.Some? ==> r.url == Collection + "/" + page.editing.value.id
    ensures page.editing.None? ==> r.url == Collection
    ensures r.body.technologies == ParseTechnologies(page.form.technologies)
    ensures r.body.title == page.form.title && r.body.description == page.form.description
            && r.body.image == page.form.image && r.body.liveUrl == page.form.liveUrl
            && r.body.githubUrl == page.form.githubUrl && r.body.category == page.form.category
            && r.body.featured == page.form.featured && r.body.order == page.form.order
  {
    var f := page.form;
    var body := Payload(f.title, f.description, f.image, ParseTechnologies(f.technologies),
                        f.liveUrl, f.githubUrl, f.category, f.featured, f.order);
    match page.editing
    case Some(p) => Request(Put, Collection + "/" + p.id, body)
    case None => Request(Post, Collection, body)
  }

  /** Opening a project and submitting it untouched updates that project in place with
      the fields it already had. */
  lemma EditThenSubmit(page: Page, p: Project)
    requires PlainList(p.technologies)
    ensures SubmitRequest(Edit(page, p)) ==
      Request(Put, Collection + "/" + p.id,
              Payload(p.title, p.description, p.image, p.technologies, p.liveUrl,
                      p.githubUrl, p.category, p.featured, p.order))
  {
  }

  /** The page after the server answered a submit: on success the form is reset and the
      edit ends; on failure (an error toast) nothing changes. */
  function Submitted(page: Page, succeeded: bool): (r: Page)
    ensures succeeded ==> r.form == DefaultForm() && r.editing.None?
    ensures !succeeded ==> r == page
  {
    if succeeded then Page(DefaultForm(), None) else page
  }

  /** "Cancel Edit": the button only exists while editing; it resets the form and ends
      the edit. */
  function CancelEdit(page: Page): (r: Page)
    ensures page.editing.Some? ==> r.form == DefaultForm() && r.editing.None?
    ensures page.editing.None? ==> r == page
  {
    if page.editing.Some? then Page(DefaultForm(), None) else page
  }

  /** A successful submit and a cancel leave an edit in the same state. */
  lemma CancelMatchesSubmit(page: Page)
    requires page.editing.Some?
    ensures CancelEdit(page) == Submitted(page, true)
    ensures SubmitRequest(CancelEdit(page)).verb == Post
  {
  }
}
