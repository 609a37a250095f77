/** The handlers of backend/routes/languages.js: list, create and delete. */
module LanguageRoutes {
  import opened Common
  import opened Seqs
  import opened Schema

  /** The body of a successful POST: `{ id, name }`. */
  datatype NewLanguage = NewLanguage(id: nat, name: string)

  /** `ORDER BY created_at DESC`. */
  function NewerFirst(a: Language, b: Language): bool {
    a.createdAt >= b.createdAt
  }

  lemma NewerFirstIsTotalPreorder()
    ensures TotalPreorder(NewerFirst)
  {
  }

  /** GET /: every language, newest first. */
  function List(languages: seq<Language>): (r: seq<Language>)
    ensures multiset(r) == multiset(languages)
    ensures forall i, j :: 0 <= i < j < |r| ==> r[i].createdAt >= r[j].createdAt
  {
    NewerFirstIsTotalPreorder();
    SortByIsSorted(languages, NewerFirst);
    SortByPermutes(languages, NewerFirst);
    SortBy(languages, NewerFirst)
  }

  /** The `catch` of POST /: a constraint failure is the client's fault, anything
      else the server's. */
  function InsertFailureReply(e: DbError): (r: Response<NewLanguage>)
    ensures r.ErrorReply?
    ensures r.status == 400 <==> e == ConstraintViolation
    ensures r.status == 500 <==> e == OtherFailure
  {
    match e
    case ConstraintViolation => ErrorReply(400, "Language already exists")
    case OtherFailure => ErrorReply(500, "Failed to add language")
  }

  /** POST / with body `{ name }`. */
  method Post(db: Database, name: Option<string>, now: nat) returns (response: Response<NewLanguage>)
    requires db.Valid()
    modifies db
    ensures db.Valid()
    ensures !TruthyString(name) ==>
      response == ErrorReply(400, "Language name is required") && db.State() == old(db.State())
    ensures TruthyString(name) && NameTaken(old(db.languages), name.value) ==>
      response == ErrorReply(400, "Language already exists") && db.State() == old(db.State())
    ensures TruthyString(name) && !NameTaken(old(db.languages), name.value) ==>
      && response == Reply(201, NewLanguage(old(db.lastLanguageId) + 1, name.value))
      && old(db.lastLanguageId) + 1 !in old(db.issuedLanguageIds)
      && db.languages == old(db.languages) + [Language(old(db.lastLanguageId) + 1, name.value, now)]
      && db.lastLanguageId == old(db.lastLanguageId) + 1
      && db.issuedLanguageIds == old(db.issuedLanguageIds) + {old(db.lastLanguageId) + 1}
      && db.sessions == old(db.sessions)
      && db.lastSessionId == old(db.lastSessionId)
      && db.issuedSessionIds == old(db.issuedSessionIds)
  {
    if !TruthyString(name) {
      return ErrorReply(400, "Language name is required");
    }
    var result := db.InsertLanguage(name.value, now);
    match result
    case Done(id) =>
      response := Reply(201, NewLanguage(id, name.value));
    case Failed(e) =>
      response := InsertFailureReply(e);
  }

  /** DELETE /:id. The cascade of the schema removes the language's sessions. */
  method Delete(db: Database, id: int) returns (response: Response<string>)
    requires db.Valid()
    modifies db
    ensures db.Valid()
    ensures !HasLanguage(old(db.languages), id) ==>
      response == ErrorReply(404, "Language not found") && db.State() == old(db.State())
    ensures HasLanguage(old(db.languages), id) ==>
      && response == Reply(200, "Language deleted")
      && db.languages == Filter(old(db.languages), LanguageOtherThan(id))
      && db.sessions == Filter(old(db.sessions), SessionNotOf(id))
      && db.lastLanguageId == old(db.lastLanguageId)
      && db.lastSessionId == old(db.lastSessionId)
      && db.issuedLanguageIds == old(db.issuedLanguageIds)
      && db.issuedSessionIds == old(db.issuedSessionIds)
  {
    if !HasLanguage(db.languages, id) {
      // No row matches, so the delete is a no-op on both tables.
      FilterKeepsAll(db.languages, LanguageOtherThan(id));
      forall s | s in db.sessions ensures SessionNotOf(id)(s) {
        var l :| l in db.languages && l.id == s.languageId;
      }
      FilterKeepsAll(db.sessions, SessionNotOf(id));
    }
    var changes := db.DeleteLanguage(id);
    if changes == 0 {
      return ErrorReply(404, "Language not found");
    }
    response := Reply(200, "Language deleted");
  }

  /** DELETE /:id followed by POST /: the new language never gets the deleted
      id, nor any id issued before. */
  method DeleteThenPost(db: Database, id: int, name: Option<string>, now: nat)
    returns (deleted: Response<string>, posted: Response<NewLanguage>)
    requires db.Valid()
    modifies db
    ensures db.Valid()
    ensures deleted.Reply? && posted.Reply? ==> posted.body.id != id
    ensures posted.Reply? ==> posted.body.id !in old(db.issuedLanguageIds)
  {
    deleted := Delete(db, id);
    posted := Post(db, name, now);
  }

  /** Deleting the same id twice: the second request always answers 404. */
  method DeleteTwice(db: Database, id: int) returns (first: Response<string>, second: Response<string>)
    requires db.Valid()
    modifies db
    ensures db.Valid()
    ensures second == ErrorReply(404, "Language not found")
    ensures !HasLanguage(old(db.languages), id) ==> first == second && db.State() == old(db.State())
  {
    first := Delete(db, id);
    second := Delete(db, id);
  }
}
