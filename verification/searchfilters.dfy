/** The filters for searching messages and their names (src/tdlib/tdlibwrapper.cpp:2168-2244). */
module SearchFilters {

  datatype SearchFilter =
    | Empty
    | PhotoAndVideo
    | Animation
    | Audio
    | ChatPhoto
    | Document
    | FailedToSend
    | Mention
    | Photo
    | Pinned
    | UnreadMention
    | UnreadReaction
    | Url
    | Video
    | VideoNote
    | VoiceAndVideoNote
    | VoiceNote

  const FILTER_PREFIX := "searchMessagesFilter"

  function Suffix(filter: SearchFilter): (s: string)
    ensures s != [] && forall k :: 0 <= k < |s| ==> IsLetter(s[k])
  {
    match filter
    case Empty => "Empty"
    case PhotoAndVideo => "PhotoAndVideo"
    case Animation => "Animation"
    case Audio => "Audio"
    case ChatPhoto => "ChatPhoto"
    case Document => "Document"
    case FailedToSend => "FailedToSend"
    case Mention => "Mention"
    case Photo => "Photo"
    case Pinned => "Pinned"
    case UnreadMention => "UnreadMention"
    case UnreadReaction => "UnreadReaction"
    case Url => "Url"
    case Video => "Video"
    case VideoNote => "VideoNote"
    case VoiceAndVideoNote => "VoiceAndVideoNote"
    case VoiceNote => "VoiceNote"
  }

  predicate IsLetter(c: char) {
    'a' <= c <= 'z' || 'A' <= c <= 'Z'
  }

  function FilterType(filter: SearchFilter): string {
    FILTER_PREFIX + Suffix(filter)
  }

  /** A name that is not known means no filter. */
  function FilterForType(name: string): SearchFilter {
    if name == FILTER_PREFIX + "Animation" then Animation
    else if name == FILTER_PREFIX + "Audio" then Audio
    else if name == FILTER_PREFIX + "ChatPhoto" then ChatPhoto
    else if name == FILTER_PREFIX + "Document" then Document
    else if name == FILTER_PREFIX + "Empty" then Empty
    else if name == FILTER_PREFIX + "FailedToSend" then FailedToSend
    else if name == FILTER_PREFIX + "Mention" then Mention
    else if name == FILTER_PREFIX + "Photo" then Photo
    else if name == FILTER_PREFIX + "PhotoAndVideo" then PhotoAndVideo
    else if name == FILTER_PREFIX + "Pinned" then Pinned
    else if name == FILTER_PREFIX + "UnreadMention" then UnreadMention
    else if name == FILTER_PREFIX + "UnreadReaction" then UnreadReaction
    else if name == FILTER_PREFIX + "Url" then Url
    else if name == FILTER_PREFIX + "Video" then Video
    else if name == FILTER_PREFIX + "VideoNote" then VideoNote
    else if name == FILTER_PREFIX + "VoiceAndVideoNote" then VoiceAndVideoNote
    else if name == FILTER_PREFIX + "VoiceNote" then VoiceNote
    else Empty
  }

  lemma {:induction false} SuffixesDiffer(a: SearchFilter, b: SearchFilter)
    requires a != b
    ensures Suffix(a) != Suffix(b)
  {
    var s, t := Suffix(a), Suffix(b);
    assert |s| != |t| || s[0] != t[0] || s[2] != t[2];
  }

  lemma {:induction false} NamesDiffer(a: SearchFilter, b: SearchFilter)
    ensures FilterType(a) == FilterType(b) <==> a == b
  {
    if a != b {
      SuffixesDiffer(a, b);
      assert FilterType(a)[|FILTER_PREFIX|..] == Suffix(a);
      assert FilterType(b)[|FILTER_PREFIX|..] == Suffix(b);
    }
  }

  lemma {:induction false} IsNameOf(filter: SearchFilter, other: SearchFilter, suffix: string)
    requires Suffix(other) == suffix
    ensures FilterType(filter) == FILTER_PREFIX + suffix <==> filter == other
  {
    NamesDiffer(filter, other);
  }

  /** Looking a filter's name up gives the filter back. */
  lemma {:induction false} FilterRoundTrip(filter: SearchFilter)
    ensures FilterForType(FilterType(filter)) == filter
  {
    IsNameOf(filter, Animation, "Animation");
    IsNameOf(filter, Audio, "Audio");
    IsNameOf(filter, ChatPhoto, "ChatPhoto");
    IsNameOf(filter, Document, "Document");
    IsNameOf(filter, Empty, "Empty");
    IsNameOf(filter, FailedToSend, "FailedToSend");
    IsNameOf(filter, Mention, "Mention");
    IsNameOf(filter, Photo, "Photo");
    IsNameOf(filter, PhotoAndVideo, "PhotoAndVideo");
    IsNameOf(filter, Pinned, "Pinned");
    IsNameOf(filter, UnreadMention, "UnreadMention");
    IsNameOf(filter, UnreadReaction, "UnreadReaction");
    IsNameOf(filter, Url, "Url");
    IsNameOf(filter, Video, "Video");
    IsNameOf(filter, VideoNote, "VideoNote");
    IsNameOf(filter, VoiceAndVideoNote, "VoiceAndVideoNote");
    IsNameOf(filter, VoiceNote, "VoiceNote");
  }
}
