/** `AnnouncementSidebar`: the news list beside the table, with a form that publishes a new
    announcement at the top and a button per card that deletes it. */
module Announcements {
  import opened Collections

  /** `Announcement["type"]`. */
  datatype Kind = General | Achievement | Reminder | Urgent

  datatype Announcement = Announcement(
    id: string,
    title: string,
    content: string,
    kind: Kind,
    author: string,
    timestamp: string)

  /** The sidebar's state: the list and the draft of the form. */
  datatype Sidebar = Sidebar(
    announcements: seq<Announcement>,
    isAdding: bool,
    newTitle: string,
    newContent: string,
    newKind: Kind)

  /** `initialAnnouncements`. */
  const InitialAnnouncements: seq<Announcement> := [
    Announcement("1", "Aktualizace Q4 cílů",
      "Týmové cíle byly upraveny na základě výkonnosti trhu. Kategorie vývoj má nyní 15% bonus multiplikátor pro zbytek čtvrtletí.",
      General, "Sarah Manager", "před 2 hodinami"),
    Announcement("2", "🎉 Alex Chen - Nejlepší výkon!",
      "Gratulujeme Alexovi za překročení denních cílů 5 dní v řadě! Pokračuj v skvělé práci.",
      Achievement, "Team Lead", "před 1 dnem"),
    Announcement("3", "Měsíční porada",
      "Nezapomeňte na měsíční poradu tento pátek ve 14:00. Přijďte připraveni se svými měsíčními reporty.",
      Reminder, "HR oddělení", "před 2 dny"),
    Announcement("4", "Údržba systému dnes večer",
      "Systém sledování provizí bude nedostupný kvůli údržbě od 23:00 do 1:00. Zadejte prosím své záznamy předem.",
      Urgent, "IT podpora", "před 3 hodinami")]

  /** The first render: the four announcements and an empty, closed form. */
  const InitialSidebar: Sidebar := Sidebar(InitialAnnouncements, false, "", "", General)

  const AdminAuthor: string := "Admin"
  const JustNow: string := "právě teď"

  /** The form accepts a draft when both the title and the content are non-empty. */
  predicate DraftComplete(s: Sidebar) {
    s.newTitle != "" && s.newContent != ""
  }

  /** The announcement `addAnnouncement` builds from the draft; `id` is `Date.now()`. */
  function Published(s: Sidebar, id: string): (a: Announcement)
    ensures a.id == id && a.title == s.newTitle && a.content == s.newContent
    ensures a.kind == s.newKind && a.author == AdminAuthor && a.timestamp == JustNow
  {
    Announcement(id, s.newTitle, s.newContent, s.newKind, AdminAuthor, JustNow)
  }

  /** `addAnnouncement`: an incomplete draft changes nothing; a complete one is put in front
      of the list, and the form is emptied and closed. */
  function Add(s: Sidebar, id: string): (r: Sidebar)
    ensures !DraftComplete(s) ==> r == s
    ensures DraftComplete(s) ==>
      && |r.announcements| == |s.announcements| + 1
      && r.announcements[0] == Published(s, id)
      && r.announcements[1..] == s.announcements
    ensures DraftComplete(s) ==>
      r.newTitle == "" && r.newContent == "" && r.newKind == General && !r.isAdding
  {
    if !DraftComplete(s) then s
    else Sidebar([Published(s, id)] + s.announcements, false, "", "", General)
  }

  /** The cards to keep when deleting `id`. */
  function KeepsOtherThan(id: string): Announcement -> bool {
    (a: Announcement) => a.id != id
  }

  /** `deleteAnnouncement`: remove every announcement with the id; the form is untouched. */
  function Delete(s: Sidebar, id: string): (r: Sidebar)
    ensures forall i :: 0 <= i < |r.announcements| ==> r.announcements[i].id != id
    ensures forall i :: 0 <= i < |s.announcements| && s.announcements[i].id != id ==>
      s.announcements[i] in r.announcements
    ensures forall i :: 0 <= i < |r.announcements| ==> r.announcements[i] in s.announcements
    ensures IsSubseq(r.announcements, s.announcements)
    ensures forall a: Announcement :: a.id != id ==> multiset(r.announcements)[a] == multiset(s.announcements)[a]
    ensures r.isAdding == s.isAdding && r.newTitle == s.newTitle
    ensures r.newContent == s.newContent && r.newKind == s.newKind
  {
    FilterIsSubseq(s.announcements, KeepsOtherThan(id));
    FilterCounts(s.announcements, KeepsOtherThan(id));
    s.(announcements := Filter(s.announcements, KeepsOtherThan(id)))
  }

  predicate HasId(list: seq<Announcement>, id: string) {
    exists i :: 0 <= i < |list| && list[i].id == id
  }

  /** Deleting an id nobody has changes nothing. */
  lemma DeleteAbsent(s: Sidebar, id: string)
    requires !HasId(s.announcements, id)
    ensures Delete(s, id) == s
  {
    FilterKeepsAll(s.announcements, KeepsOtherThan(id));
  }

  /** Deleting twice is deleting once. */
  lemma DeleteIdempotent(s: Sidebar, id: string)
    ensures Delete(Delete(s, id), id) == Delete(s, id)
  {
    DeleteAbsent(Delete(s, id), id);
  }

  /** The order of two deletions does not matter. */
  lemma DeleteCommutes(s: Sidebar, a: string, b: string)
    ensures Delete(Delete(s, a), b) == Delete(Delete(s, b), a)
  {
    FilterCommute(s.announcements, KeepsOtherThan(a), KeepsOtherThan(b));
  }

  /** Publishing under a fresh id and then deleting that id gives back the old list. */
  lemma DeleteUndoesAdd(s: Sidebar, id: string)
    requires DraftComplete(s) && !HasId(s.announcements, id)
    ensures Delete(Add(s, id), id).announcements == s.announcements
  {
    var p := KeepsOtherThan(id);
    FilterConcat([Published(s, id)], s.announcements, p);
    assert Filter([Published(s, id)], p) == [];
    FilterKeepsAll(s.announcements, p);
    assert Add(s, id).announcements == [Published(s, id)] + s.announcements;
  }

  /** The "+ Přidat novinku" button. */
  function OpenForm(s: Sidebar): (r: Sidebar)
    ensures r.isAdding && r.announcements == s.announcements
    ensures r.newTitle == s.newTitle && r.newContent == s.newContent && r.newKind == s.newKind
  {
    s.(isAdding := true)
  }

  /** "Zrušit": close the form. The draft is kept and shows again when the form reopens. */
  function Cancel(s: Sidebar): (r: Sidebar)
    ensures !r.isAdding && r.announcements == s.announcements
    ensures r.newTitle == s.newTitle && r.newContent == s.newContent && r.newKind == s.newKind
  {
    s.(isAdding := false)
  }

  /** The inputs of the form. */
  function SetTitle(s: Sidebar, title: string): (r: Sidebar)
    ensures r.newTitle == title && r.newContent == s.newContent && r.newKind == s.newKind
    ensures r.announcements == s.announcements && r.isAdding == s.isAdding
  {
    s.(newTitle := title)
  }

  function SetContent(s: Sidebar, content: string): (r: Sidebar)
    ensures r.newContent == content && r.newTitle == s.newTitle && r.newKind == s.newKind
    ensures r.announcements == s.announcements && r.isAdding == s.isAdding
  {
    s.(newContent := content)
  }

  function SetKind(s: Sidebar, k: Kind): (r: Sidebar)
    ensures r.newKind == k && r.newTitle == s.newTitle && r.newContent == s.newContent
    ensures r.announcements == s.announcements && r.isAdding == s.isAdding
  {
    s.(newKind := k)
  }

  /** Cancelling and reopening the form brings back the same draft, so publishing then adds
      what was typed before the cancel. */
  lemma CancelKeepsDraft(s: Sidebar, id: string)
    ensures Add(OpenForm(Cancel(s)), id).announcements == Add(s, id).announcements
  {
  }

  /** Filling the whole form and publishing puts exactly that announcement on top. */
  lemma FillAndPublish(s: Sidebar, title: string, content: string, k: Kind, id: string)
    requires title != "" && content != ""
    ensures var r := Add(SetKind(SetContent(SetTitle(OpenForm(s), title), content), k), id);
      r.announcements == [Announcement(id, title, content, k, AdminAuthor, JustNow)] + s.announcements
      && r == Sidebar(r.announcements, false, "", "", General)
  {
  }

  // ---------------------------------------------------------------------------
  // The badge of a card

  /** The icons of the badges (from lucide-react). */
  datatype Icon = Star | CalendarIcon | AlertCircle | Megaphone

  /** `getTypeColor`; "general" is the default branch. */
  function TypeColor(k: Kind): string {
    match k
    case Achievement => "bg-green-100 text-green-800"
    case Reminder => "bg-blue-100 text-blue-800"
    case Urgent => "bg-red-100 text-red-800"
    case General => "bg-gray-100 text-gray-800"
  }

  /** `getTypeIcon`. */
  function TypeIcon(k: Kind): Icon {
    match k
    case Achievement => Star
    case Reminder => CalendarIcon
    case Urgent => AlertCircle
    case General => Megaphone
  }

  /** `getTypeLabel`. */
  function TypeLabel(k: Kind): string {
    match k
    case Achievement => "úspěch"
    case Reminder => "připomínka"
    case Urgent => "urgentní"
    case General => "obecné"
  }

  /** Each badge mapping tells the four kinds apart: colour, icon and label each determine
      the kind. */
  lemma BadgesDistinguishKinds(a: Kind, b: Kind)
    ensures TypeColor(a) == TypeColor(b) <==> a == b
    ensures TypeIcon(a) == TypeIcon(b) <==> a == b
    ensures TypeLabel(a) == TypeLabel(b) <==> a == b
  {
  }

  /** The general kind gets the grey "obecné" megaphone badge. */
  lemma GeneralIsDefault()
    ensures TypeColor(General) == "bg-gray-100 text-gray-800"
    ensures TypeIcon(General) == Megaphone && TypeLabel(General) == "obecné"
  {
  }
}
