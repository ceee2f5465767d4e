// Identifiers derived from the evidence itself, so that every pass over the
// same evidence arrives at the same one. A digest of the material is modelled
// by the material: a constructor that no two different materials share.
module EventIdentity {
  import opened Taxonomy

  const POSITION_BUCKET_MS := 100

  datatype EventId = EventId(run: string, kind: SpeechEventType, bucket: int, discriminator: string)

  datatype TokenId = TokenId(run: string, bucket: int, text: string)

  function DeriveEventId(run: string, kind: SpeechEventType, start: int, discriminator: string): EventId {
    EventId(run, kind, start / POSITION_BUCKET_MS, discriminator)
  }

  function DeriveTokenId(run: string, start: int, text: string): TokenId {
    TokenId(run, start / POSITION_BUCKET_MS, text)
  }

  predicate InBucket(start: int, bucket: int) { 100 * bucket <= start < 100 * (bucket + 1) }

  // Two events share an identifier exactly when run, class and discriminator are
  // the same and both start within the same tenth of a second.
  lemma SameEventIdExactly(
    run: string, kind: SpeechEventType, start: int, discriminator: string,
    run': string, kind': SpeechEventType, start': int, discriminator': string)
    ensures DeriveEventId(run, kind, start, discriminator) == DeriveEventId(run', kind', start', discriminator') <==>
            && run == run' && kind == kind' && discriminator == discriminator'
            && exists bucket :: InBucket(start, bucket) && InBucket(start', bucket)
  {
    SameBucketExactly(start, start');
  }

  lemma SameTokenIdExactly(run: string, start: int, text: string, run': string, start': int, text': string)
    ensures DeriveTokenId(run, start, text) == DeriveTokenId(run', start', text') <==>
            && run == run' && text == text'
            && exists bucket :: InBucket(start, bucket) && InBucket(start', bucket)
  {
    SameBucketExactly(start, start');
  }

  lemma SameBucketExactly(start: int, start': int)
    ensures start / POSITION_BUCKET_MS == start' / POSITION_BUCKET_MS <==>
            exists bucket :: InBucket(start, bucket) && InBucket(start', bucket)
  {
    assert InBucket(start, start / POSITION_BUCKET_MS) && InBucket(start', start' / POSITION_BUCKET_MS);
  }
}
