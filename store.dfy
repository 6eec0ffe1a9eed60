/** The MongoDB database as the core sees it: one keyed collection per model.
    Every `save()` of a handler writes its changes back to its collection. */
module Store {
  import opened Common
  import opened Schemas

  class Database {
    var books: map<Id, Book>
    var users: map<Id, User>
    var borrows: map<Id, Borrow>
    var transactions: map<Id, Transaction>
  }
}
