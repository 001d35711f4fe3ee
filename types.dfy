/** The record shapes of types.ts that the modelled components share. */
module Types {
  /** `Testimonial` */
  datatype Testimonial = Testimonial(quote: string, author: string, platform: string, avatarUrl: string, country: string)

  /** `JournalEntry`: the content is a list of paragraphs. */
  datatype JournalEntry = JournalEntry(author: string, date: string, title: string, content: seq<string>)
}
