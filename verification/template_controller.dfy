/** backend/controllers/templateController.js: saved templates owned by
    users, with save, list, look-up, per-category listing, delete and
    update. The template collection is a map from id to template; every
    query is scoped to the requesting user through `createdBy`. */
module TemplateController {
  import opened Js

  type TemplateId = string
  type UserId = string

  datatype Template = Template(
    templateName: string,
    category: string,
    description: string,
    subject: string,
    content: string,
    createdBy: UserId,
    updatedAt: Option<int>)

  type Store = map<TemplateId, Template>

  /** The request body's fields; "" stands for a missing or falsy one. */
  datatype TemplateFields = TemplateFields(
    templateName: string,
    category: string,
    description: string,
    subject: string,
    content: string)

  datatype TemplateReply =
    | MissingFields
    | TemplateNotFound
    | NoneInCategory
    | Saved(id: TemplateId, template: Template)
    | Listing(templates: Store)
    | One(template: Template)
    | Removed
    | Changed(template: Template)
  {
    function Code(): int {
      match this
      case MissingFields => 400
      case TemplateNotFound => 404
      case NoneInCategory => 404
      case Saved(_, _) => 201
      case Listing(_) => 200
      case One(_) => 200
      case Removed => 200
      case Changed(_) => 200
    }
  }

  /** The template `id` exists and belongs to `user`: the filter
      `{ _id: id, createdBy: user }`. */
  predicate Owns(store: Store, user: UserId, id: TemplateId) {
    id in store && store[id].createdBy == user
  }

  /** Every entry other than `id` is the same in both stores. */
  ghost predicate OthersUnchanged(store: Store, store': Store, id: TemplateId) {
    && (forall k :: k != id ==> (k in store' <==> k in store))
    && (forall k :: k != id && k in store' ==> store'[k] == store[k])
  }

  /** `saveTemplate`. `freshId` is the id the database assigns. The
      subject is optional; the other four fields are required. */
  function SaveTemplate(store: Store, freshId: TemplateId, user: UserId, f: TemplateFields)
    : (out: (Store, TemplateReply))
    requires freshId !in store
    ensures out.1.MissingFields? <==>
      f.templateName == [] || f.category == [] || f.description == [] || f.content == []
    ensures out.1.MissingFields? ==> out.0 == store
    ensures !out.1.MissingFields? ==>
      && out.1.Saved?
      && out.1.id == freshId
      && freshId in out.0
      && out.0[freshId] == out.1.template
      && out.1.template.createdBy == user
      && out.1.template.updatedAt.None?
      && out.1.template.templateName == f.templateName
      && out.1.template.category == f.category
      && out.1.template.description == f.description
      && out.1.template.subject == f.subject
      && out.1.template.content == f.content
      && OthersUnchanged(store, out.0, freshId)
    ensures out.1.MissingFields? || out.1.Saved?
  {
    if f.templateName == [] || f.category == [] || f.description == [] || f.content == [] then
      (store, MissingFields)
    else
      var t := Template(f.templateName, f.category, f.description, f.subject, f.content, user, None);
      (store[freshId := t], Saved(freshId, t))
  }

  /** `getTemplates`: exactly the templates `user` created. */
  function GetTemplates(store: Store, user: UserId): (mine: Store)
    ensures forall id :: id in mine <==> Owns(store, user, id)
    ensures forall id :: id in mine ==> id in store && mine[id] == store[id]
  {
    map id | id in store && store[id].createdBy == user :: store[id]
  }

  /** `templateById`: found only when the template exists and is the
      caller's own. */
  function TemplateById(store: Store, user: UserId, id: TemplateId): (r: TemplateReply)
    ensures r.One? <==> Owns(store, user, id)
    ensures r.One? ==> r.template == store[id]
    ensures !r.One? ==> r == TemplateNotFound
  {
    if Owns(store, user, id) then One(store[id]) else TemplateNotFound
  }

  /** `templatesByCategory`: the caller's templates in `category`, or 404
      when there are none. */
  function TemplatesByCategory(store: Store, user: UserId, category: string): (r: TemplateReply)
    ensures r.NoneInCategory? <==>
      forall id :: Owns(store, user, id) ==> store[id].category != category
    ensures !r.NoneInCategory? ==> r.Listing? && r.templates != map[]
    ensures r.Listing? ==>
      && (forall id :: id in r.templates <==> Owns(store, user, id) && store[id].category == category)
      && (forall id :: id in r.templates ==> id in store && r.templates[id] == store[id])
  {
    var found := map id | id in store && store[id].createdBy == user && store[id].category == category :: store[id];
    if found == map[] then
      assert forall id :: Owns(store, user, id) ==> store[id].category != category by {
        forall id | Owns(store, user, id) ensures store[id].category != category {
          assert id in found <==> store[id].category == category;
        }
      }
      NoneInCategory
    else
      Listing(found)
  }

  /** `deleteTemplate`: removes the template only if it is the caller's. */
  function DeleteTemplate(store: Store, user: UserId, id: TemplateId): (out: (Store, TemplateReply))
    ensures out.1.Removed? <==> Owns(store, user, id)
    ensures !out.1.Removed? ==> out.1 == TemplateNotFound && out.0 == store
    ensures out.1.Removed? ==> id !in out.0
    ensures OthersUnchanged(store, out.0, id)
  {
    if Owns(store, user, id) then (store - {id}, Removed) else (store, TemplateNotFound)
  }

  /** `updateTemplate`: all five fields are required, then the caller's
      template is overwritten field by field and stamped with `now`; its
      owner is kept. `now` stands for `Date.now()`. */
  function UpdateTemplate(store: Store, user: UserId, id: TemplateId, f: TemplateFields, now: int)
    : (out: (Store, TemplateReply))
    ensures out.1.MissingFields? <==>
      f.templateName == [] || f.category == [] || f.description == [] || f.subject == [] || f.content == []
    ensures out.1.TemplateNotFound? <==> !out.1.MissingFields? && !Owns(store, user, id)
    ensures out.1.MissingFields? || out.1.TemplateNotFound? || out.1.Changed?
    ensures !out.1.Changed? ==> out.0 == store
    ensures out.1.Changed? ==>
      && id in out.0
      && out.0[id] == out.1.template
      && out.1.template.createdBy == user
      && out.1.template.updatedAt == Some(now)
      && out.1.template.templateName == f.templateName
      && out.1.template.category == f.category
      && out.1.template.description == f.description
      && out.1.template.subject == f.subject
      && out.1.template.content == f.content
    ensures OthersUnchanged(store, out.0, id)
  {
    if f.templateName == [] || f.category == [] || f.description == [] || f.subject == [] || f.content == [] then
      (store, MissingFields)
    else if !Owns(store, user, id) then
      (store, TemplateNotFound)
    else
      var t := store[id].(templateName := f.templateName, category := f.category,
                          description := f.description, subject := f.subject,
                          content := f.content, updatedAt := Some(now));
      (store[id := t], Changed(t))
  }

  /* ---- How the operations fit together ---- */

  /** Look-up by id agrees with the caller's listing. */
  lemma ByIdAgreesWithListing(store: Store, user: UserId, id: TemplateId)
    ensures TemplateById(store, user, id).One? <==> id in GetTemplates(store, user)
    ensures TemplateById(store, user, id).One? ==>
      TemplateById(store, user, id).template == GetTemplates(store, user)[id]
  {
  }

  /** A category listing is the part of the caller's listing in that
      category. */
  lemma CategoryWithinListing(store: Store, user: UserId, category: string)
    ensures var r := TemplatesByCategory(store, user, category);
      r.Listing? ==> forall id :: id in r.templates ==>
        id in GetTemplates(store, user) && GetTemplates(store, user)[id].category == category
  {
  }

  /** A saved template is visible to its creator and invisible to
      everyone else, whose listings do not change. */
  lemma SaveThenList(store: Store, freshId: TemplateId, user: UserId, other: UserId, f: TemplateFields)
    requires freshId !in store && other != user
    ensures var (store', r) := SaveTemplate(store, freshId, user, f);
      && (r.Saved? ==> TemplateById(store', user, freshId) == One(r.template))
      && (r.Saved? ==> TemplateById(store', other, freshId) == TemplateNotFound)
      && GetTemplates(store', other) == GetTemplates(store, other)
  {
    var (store', r) := SaveTemplate(store, freshId, user, f);
    ListingUnchangedFor(store, store', freshId, other);
  }

  /** After a delete the template is gone, for its owner too. */
  lemma DeleteThenNotFound(store: Store, user: UserId, id: TemplateId)
    requires Owns(store, user, id)
    ensures var (store', _) := DeleteTemplate(store, user, id);
      TemplateById(store', user, id) == TemplateNotFound
  {
  }

  /** A user can neither delete nor update another user's template: both
      answer 404 (or 400 for a missing field) and leave the store alone. */
  lemma ForeignTemplateUntouched(store: Store, user: UserId, id: TemplateId, f: TemplateFields, now: int)
    requires id in store && store[id].createdBy != user
    ensures DeleteTemplate(store, user, id) == (store, TemplateNotFound)
    ensures UpdateTemplate(store, user, id, f, now).0 == store
  {
  }

  /** An update is what a later look-up returns, and it moves no template
      between owners: every user's set of template ids stays the same. */
  lemma UpdateThenById(store: Store, user: UserId, id: TemplateId, f: TemplateFields, now: int, u: UserId)
    ensures var (store', r) := UpdateTemplate(store, user, id, f, now);
      && (r.Changed? ==> TemplateById(store', user, id) == One(r.template))
      && GetTemplates(store', u).Keys == GetTemplates(store, u).Keys
  {
    var (store', r) := UpdateTemplate(store, user, id, f, now);
    if r.Changed? {
      assert forall k :: k in GetTemplates(store', u) <==> k in GetTemplates(store, u) by {
        forall k ensures k in GetTemplates(store', u) <==> k in GetTemplates(store, u) {
          if k == id {
            assert store'[k].createdBy == store[k].createdBy;
          }
        }
      }
    }
  }

  /** A change confined to `id`, which `other` did not own before and does
      not own after, leaves `other`'s listing as it was. */
  lemma ListingUnchangedFor(store: Store, store': Store, id: TemplateId, other: UserId)
    requires OthersUnchanged(store, store', id)
    requires !Owns(store, other, id) && !Owns(store', other, id)
    ensures GetTemplates(store', other) == GetTemplates(store, other)
  {
    var a, b := GetTemplates(store', other), GetTemplates(store, other);
    assert forall k :: k in a <==> k in b by {
      forall k ensures k in a <==> k in b {
        if k != id && k in store' {
          assert store'[k] == store[k];
        }
      }
    }
    assert a.Keys == b.Keys;
  }

  /** Deleting or updating one user's template leaves every other user's
      listing exactly as it was. */
  lemma OtherUsersIsolated(store: Store, user: UserId, other: UserId, id: TemplateId, f: TemplateFields, now: int)
    requires other != user
    ensures GetTemplates(DeleteTemplate(store, user, id).0, other) == GetTemplates(store, other)
    ensures GetTemplates(UpdateTemplate(store, user, id, f, now).0, other) == GetTemplates(store, other)
  {
    var (s1, r1) := DeleteTemplate(store, user, id);
    if r1.Removed? {
      ListingUnchangedFor(store, s1, id, other);
    }
    var (s2, r2) := UpdateTemplate(store, user, id, f, now);
    if r2.Changed? {
      ListingUnchangedFor(store, s2, id, other);
    }
  }
}
