# Notes: a shared note board with two roles

This is a Dafny model of a small note-sharing web application. It has two parts:

- a Flask server (`app.py`), which keeps a list of notes and protects its routes with a role stored in the session;
- a browser widget (`app.js`), which renders the list, escapes and linkifies the note text, and drives the create, edit and delete interactions.

The model has four modules:

- `Records` holds the values both sides share:
  - the `Note` record and an `Option` type;
  - the ECMAScript whitespace class, used by `\s` and by `String.prototype.trim`, and `Trim` itself;
  - the decimal text of an id, as a template literal prints it into URLs and markup.
- `Markup` holds the widget's pure string functions:
  - `escapeHtml`, modelled as the text-node serialisation of the HTML Living Standard (section 13.3, "Serialising HTML fragments"). It replaces `&`, U+00A0, `<` and `>`, and nothing else;
  - `linkify`, modelled as the left-to-right, greedy scan that `String.prototype.replace` does with the global pattern `https?:\/\/[^\s]+`;
  - `renderNotes`, modelled as the exact markup of the empty state and of each card, whitespace included.
- `Widget` holds the widget's state as a class. Its fields are:
  - the id being edited;
  - the two input fields;
  - the label of the save button;
  - the markup of the list.

  The handlers `loadNotes`, `saveNote`, `editNote` and `deleteNote` are methods. Their parameters are the server's replies and the user's answer to the confirmation prompt. Their results are the request sent (the `GET /api/notes` of `loadNotes` and `editNote`; none when `saveNote` finds a blank field or the delete is not confirmed) and what the user is shown.
- `Server` holds the access gate of `login_required`, the password check of `login`, and a class with the store and the session. The class has `login`, `logout` and the three note routes as methods.

The linkifier has two specifications:

- `Scanned`, a relational one: a split of the text is leftmost-longest;
- `NoUrlIn`, which says the pattern matches nowhere in a text.

Several properties are proved against them:

- the scan meets `Scanned`, and `Scanned` has only one solution;
- linkification leaves a text unchanged exactly when the pattern matches nowhere in it;
- deleting the inserted tags restores the input;
- the whole content pipeline of a card can be inverted. Decoding the character references after stripping the anchors gives the note's content back.

Quotes are not escaped: the serialiser keeps `"` and `'` in text nodes, and the model follows it. `EscapeHtmlSafe` and `EscapeHtmlUnchanged` state that quotes pass through unchanged. `QuoteEndsHref` and `QuoteEndsHrefExample` show the consequence: a `"` inside a URL ends the anchor's `href` value, and the rest of the URL is read as further attributes.

Because the content is escaped before it is linkified, a no-break space, which ends a URL in the text as typed, has become `&nbsp;` by the time the pattern runs. The anchor then runs on across it, as `NbspJoinsUrl` shows.

Ids are not unique. `create_note` numbers a new note one more than the number of notes. When the stored notes are numbered 1..n, deleting any note but the last and then creating one repeats the id n of the last note, which is still stored (`CreateAfterDeleteReusesId`). A later delete of that id removes both notes.

## Model

| member | source | states |
|---|---|---|
| Records.IsWhitespace | app.js:31 | the ECMAScript WhiteSpace and LineTerminator code points, the class `\s` matches and `trim` strips; Trim, RunLen and MatchLenLongest state what it decides |
| Records.Trim | app.js:65-66 | the result is empty exactly when the input is all whitespace; otherwise it starts and ends with non-whitespace, is the infix after the leading whitespace, and every character outside it is whitespace |
| Records.Decimal | app.js:48-49 | an id prints as a non-empty digit string, with a leading `-` for negative ids |
| Records.NatDecimalRoundTrip | app.js:55 | reading the printed digits of a natural number back gives the number |
| Records.DecimalInjective | app.js:122 | distinct ids print as distinct text |
| Markup.EscapeHtml | app.js:134-137 | `escapeHtml`, each character replaced on its own by `EscapeChar`; its properties are stated by EscapeHtmlSafe, EscapeHtmlUnchanged, EscapeHtmlAppend and UnescapeEscapeHtml |
| Markup.EscapeChar | app.js:134-137 | `&`, no-break space, `<` and `>` become character references starting with `&`; every other character, quotes included, is kept as it is |
| Markup.EscapeHtmlSafe | app.js:134-137 | the escaped text contains no `<`, `>` or no-break space, and contains each kind of quote exactly when the input does |
| Markup.EscapeHtmlUnchanged | app.js:134-137 | text with nothing to escape, quotes included, is returned as it is |
| Markup.EscapeHtmlAppend | app.js:134-137 | escaping works character by character, so it distributes over concatenation |
| Markup.UnescapeEscapeChar | app.js:134-137 | each character reference the escaper emits decodes to its character and nothing more |
| Markup.UnescapeEscapeHtml | app.js:134-137 | decoding the escaped text gives the original text |
| Markup.SchemeLen | app.js:31 | the `https?://` prefix has length 0, 7 or 8 and fits in the text |
| Markup.RunLen | app.js:31 | the run of non-whitespace at the start is maximal: all its characters are non-whitespace and the next one, if any, is whitespace |
| Markup.MatchLen | app.js:31 | the length of the pattern's match at the start of the text, at most the text's length; MatchLenIsUrl, MatchLenZeroNoUrl and MatchLenLongest state that it is the greedy match |
| Markup.MatchLenIsUrl | app.js:31 | a match found at the start is a URL of the pattern and is followed by whitespace or the end of the text |
| Markup.MatchLenZeroNoUrl | app.js:31 | when no match is found at the start, no prefix of the text is a URL |
| Markup.MatchLenLongest | app.js:31 | a URL prefix followed by whitespace or the end is exactly the match the greedy pattern takes |
| Markup.Tokenize | app.js:30-35 | the left-to-right scan of the global `replace`; TokenizeScanned and ScannedUnique state that it is the unique leftmost-longest split, PlainTokenize that it loses no text |
| Markup.Linkify | app.js:30-35 | `linkify`, the scan's pieces rendered with each URL as an anchor; LinkifyUnchangedIffNoUrl, WholeUrlLinkified and StripTagsLinkify state its properties |
| Markup.Tag | app.js:33 | the markup `<body>` of a tag; StripTagsTag states that tag removal deletes it whole |
| Markup.AnchorAttributes | app.js:33 | the inside of the opening anchor tag, with the URL as the `href` value inserted as it is; QuoteEndsHref states the consequence |
| Markup.Anchor | app.js:33 | the replacement built for a matched URL; WholeUrlLinkified, StripTagsAnchor and QuoteEndsHref state its properties |
| Markup.RenderPiece | app.js:32-34 | a kept character as itself, a match as its anchor; StripTagsRender states its inverse |
| Markup.Render | app.js:32-34 | the kept characters and the replacements joined in scan order, as `replace` assembles them; RenderWithoutLinks and StripTagsRender state its properties |
| Markup.TokenizeScanned | app.js:30-35 | the scan splits the text leftmost-longest: each link is a URL ending at whitespace or the end of the text, and each kept character is where no URL starts |
| Markup.ScannedUnique | app.js:30-35 | any leftmost-longest split of the text is the one the scan makes |
| Markup.PlainTokenize | app.js:30-35 | the link texts and kept characters of the scan, in order, spell the input |
| Markup.PlainScanned | app.js:30-35 | the link texts and kept characters of any leftmost-longest split spell the text |
| Markup.RenderWithoutLinks | app.js:32-34 | pieces without links render as their plain text; any link makes the markup strictly longer |
| Markup.LinkCountNoUrl | app.js:30-35 | the scan finds no link exactly when the pattern matches nowhere in the text |
| Markup.LinkifyUnchangedIffNoUrl | app.js:30-35 | linkification returns the text unchanged exactly when the pattern matches nowhere in it |
| Markup.WholeUrlLinkified | app.js:32-34 | a text that is one URL becomes one anchor whose `href` and link text are that URL |
| Markup.AfterTagSkips | app.js:33 | skipping a tag resumes right after its `>` |
| Markup.StripTagsKeepsText | app.js:33 | text with no `<` survives tag removal unchanged |
| Markup.StripTagsTag | app.js:33 | a tag without `>` in its body is removed whole |
| Markup.StripTagsAnchor | app.js:33 | removing the tags of an anchor around a URL without angle brackets leaves the URL |
| Markup.StripTagsRender | app.js:32-34 | removing the tags from rendered pieces without angle brackets gives their plain text |
| Markup.TokenizeAngleFree | app.js:30-35 | scanning a text without angle brackets yields pieces without angle brackets |
| Markup.StripTagsLinkify | app.js:30-35 | removing every tag from linkified text that has no angle brackets gives the text back |
| Markup.ContentRoundTrip | app.js:58 | removing the anchors from the escaped and linkified content and decoding it gives the note's content |
| Markup.QuoteEndsHref | app.js:33 | a URL with nothing to escape, quotes included, is inserted into the `href` value verbatim |
| Markup.QuoteEndsHrefExample | app.js:33 | the content `http://x"onclick="f()` becomes an anchor whose `href` is cut at the quote, followed by an `onclick` attribute |
| Markup.IsUrlExtend | app.js:31 | a URL followed by more non-whitespace is still a URL |
| Markup.EscapeAroundNbsp | app.js:134-137 | a no-break space between two texts with nothing to escape becomes `&nbsp;` and the texts are kept |
| Markup.NbspJoinsUrl | app.js:58 | a URL followed by a no-break space and a word is not one URL as typed, yet the escaped content becomes a single anchor over the URL, the `&nbsp;` reference and the word |
| Markup.Spaces | app.js:46-60 | the indentation of the templates is a run of exactly n spaces |
| Markup.Actions | app.js:44-52 | a card has an action block exactly when the role is `admin` |
| Markup.EmptyState | app.js:39 | the empty-state placeholder; RenderNotes states that it is the markup exactly for the empty list |
| Markup.Join | app.js:43-61 | `xs.map(f).join('')`, which the cards and the escaper are built on; JoinAppend and JoinPointwise state its properties |
| Markup.CardMarkup | app.js:54-60 | the card template with its exact indentation; RenderOneNote states how a note fills it |
| Markup.Card | app.js:43-60 | a note's card: its id, the role's action block, the escaped title and the escaped then linkified content; see RenderOneNote and ReaderCardsHaveNoActions |
| Markup.Cards | app.js:43-61 | `notes.map(...).join('')` over the cards; see RenderNotesAppend |
| Markup.JoinAppend | app.js:43-61 | mapping and joining a concatenation joins the two parts in order |
| Markup.JoinPointwise | app.js:43-61 | two mappings that agree on every element join to the same text |
| Markup.RenderNotes | app.js:37-62 | the list markup is the empty-state block exactly when there are no notes |
| Markup.RenderNotesAppend | app.js:43-61 | the cards follow the order of the notes: the markup of a concatenation is the markup of its parts in turn |
| Markup.RenderOneNote | app.js:54-60 | a single note renders as its card: id, the role's action block, the escaped title and the escaped then linkified content |
| Markup.ReaderCardsHaveNoActions | app.js:44-52 | for any role other than `admin` every card has an empty action block |
| Widget.EffectiveRole | app.js:6 | a missing or empty role reads as `reader`; the role is `admin` exactly when `admin` was injected |
| Widget.IsEditing | app.js:74-75 | JavaScript truthiness of `editingId`: false for null and for the id 0; SaveRequest states how it picks the verb |
| Widget.NotePath | app.js:122 | `/api/notes/` followed by the id's decimal text; NotePathInjective states that it names one id |
| Widget.NotePathInjective | app.js:122 | two note URLs are equal only for equal ids |
| Widget.SaveRequest | app.js:74-80 | the request is a PUT to the note's URL exactly when the edited id is truthy (not null, not 0), a POST to `/api/notes` otherwise, and carries both trimmed fields |
| Widget.AlertText | app.js:91 | the server's message is shown unless missing or empty, the fallback otherwise |
| Widget.FindNote | app.js:102 | the position found holds the id and no earlier note does; None means no note has the id |
| Widget.NoteWidget.constructor | app.js:6-8 | the role defaults to `reader` and no note is being edited |
| Widget.NoteWidget.LoadNotes | app.js:16-28 | the request is `GET /api/notes`; a list reply replaces the markup with the rendered notes; 401 reloads the page; a failure only logs; only the list markup can change |
| Widget.NoteWidget.SaveNote | app.js:64-96 | blank fields alert and send nothing; otherwise the save request is sent; success clears the fields and leaves edit mode; a failure alerts with the server's message or the fallback and changes nothing; the button label stays in step with edit mode |
| Widget.NoteWidget.EditNote | app.js:98-114 | the request is `GET /api/notes`; when the fetched list has the id, the fields take the first such note and edit mode starts for that id; otherwise nothing changes; the label stays in step with edit mode |
| Widget.NoteWidget.DeleteNote | app.js:116-132 | refusing the prompt sends nothing; confirming sends a DELETE to the note's URL; success reloads the list, failure alerts with the server's message or the fallback |
| Server.Guard | app.py:14-24 | 401 exactly when the session has no role, 403 exactly when an admin-only route meets a non-admin role, the handler runs otherwise |
| Server.LoginRole | app.py:44-52 | the admin password grants `admin`; otherwise the reader password grants `reader`; anything else grants nothing; an absent password matches an unset one |
| Server.Refusal | app.py:19-21 | the gate's refusals are 401 `Unauthorized` and 403 `Forbidden` |
| Server.NewNote | app.py:68 | a new note is numbered one more than the number of notes, with missing fields read as empty |
| Server.WithoutId | app.py:76 | the list comprehension of `delete_note`, never longer than its input; WithoutIdMembers, WithoutAbsentId, WithoutIdAppend and WithoutIdLength state which notes it keeps and in what order |
| Server.WithoutIdMembers | app.py:76 | deleting keeps exactly the notes with another id |
| Server.WithoutAbsentId | app.py:76 | deleting an id no note has changes nothing |
| Server.WithoutIdAppend | app.py:76 | deletion distributes over concatenation, so the kept notes stay in order |
| Server.WithoutIdLength | app.py:76 | deletion removes exactly as many notes as carry the id |
| Server.CountConsecutiveIds | app.py:68 | in notes numbered consecutively each id in range occurs exactly once |
| Server.CreateAfterDeleteReusesId | app.py:65-78 | after deleting any note but the last from notes numbered 1..n, the next note created gets the id of the last note, which is still stored |
| Server.NoteServer.constructor | app.py:9-10 | the server starts with the configured passwords, the stored notes and an empty session |
| Server.NoteServer.Login | app.py:42-52 | a matching password stores its role and answers with it; any other answers 401 `Invalid password` and leaves the session as it was |
| Server.NoteServer.Logout | app.py:54-57 | the session is cleared, every guarded route then answers 401, and the reply redirects to `/` |
| Server.NoteServer.GetNotes | app.py:59-61 | any logged-in role gets the stored notes; no role gets 401 |
| Server.NoteServer.CreateNote | app.py:63-71 | an admin appends exactly one new note at the end and gets it back with 201; any other session gets the gate's refusal and the notes stay as they were |
| Server.NoteServer.DeleteNote | app.py:73-78 | an admin removes every note with the id and gets success whether or not one existed; any other session gets the gate's refusal and the notes stay as they were |

## Left out

- Network, DOM and browser services: `fetch`, `alert`, `confirm`, `focus`, `console.error` and the page reload are not modelled as calls. Replies and the user's answer are handler parameters, and what the user sees is an `Effect` result.
- JSON encoding and decoding: replies are already decoded. A reply body that is not JSON, or a list reply that is not an array, is the `Lost` or `Unusable` case. Note fields that are not strings, and ids that are not integers, are not modelled.
- Records.Decimal: JavaScript prints integers of 10^21 and above in exponent form; the model always prints plain decimal digits.
- The asynchronous interleaving of handlers, such as a double click that sends two saves, is not modelled. Each handler runs to completion with the reply it is given.
- The initial label of the save button comes from the page template, which is not part of this model. The constructor takes it to be "Ajouter une note".
- The widget's start-up (app.js:10-14: the first `loadNotes`, and binding the save button, which happens only when the page has one) is not modelled; the model does not tie the editor to the role.
- Widget.NoteWidget.EditNote: the first note with the id is taken, found with JavaScript's strict equality on integer ids. Ids of other types are not modelled.
- The file I/O of `load_notes` and `save_notes` is not modelled. The store is the `notes` field of the server. A missing file, or one that is not valid JSON, reads as the empty list and is represented by the constructor's `stored` argument.
- Flask itself is not modelled: routing (the `<int:note_id>` converter only accepts unsigned digits, so `DeleteNote` takes a natural number and a request for another id, which Flask answers with 404, is not modelled), `render_template`, the `index` page, the secret key, and `redirect(url_for(...))`, which is modelled as a `RedirectTo("/")` body with status 302.
- `request.get_json()` returning no body is not modelled. The server then fails with an error of its own, and the model assumes a JSON object whose fields are present or absent.
- One server object holds the store and the session of one client. Several clients sharing the store, and concurrent requests racing on the file, are not modelled.
- The server has no `PUT /api/notes/<id>` route, so the widget's update request is refused by Flask. The server model has no update operation, and on the widget side such a reply is `NotOk` or `Lost`.
